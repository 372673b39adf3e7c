# HR attendance front end — Dafny model

This project models the logic in the React components of the HR front end
(SMRFT/HR_Frontend). The logic is grouped by screen:

- **Monthly attendance report** (`AttendanceReport.js`), in `attendance_report.dfy`.
  - The raw punches are grouped per employee in order of first appearance.
  - Each employee's punches are sorted by time. A loop with a pending-IN slot then pairs them into shift days. Each day is keyed by the date of its IN, so an overnight shift stays on the day it started.
  - Each day gets its work time (clamped to 0..24 h, with 24 h added to a negative span) and its status.
  - Also modelled: the search filter, the month's counters, and the CSV total of worked hours.
- **Daily attendance view** (`DailyAttendance.js`), in `daily_attendance.dfy`.
  - A copy of the day's punches is sorted, then folded into one row per employee. A row holds the first IN, the last OUT, the last punch and the status.
  - Each row gets a gross duration, which runs to "now" for an employee still checked in today.
  - Also modelled: the department list; the search, department and status filters; the comparator and the in-place sort; the sort toggle; the counters; and the fetch window.
- **Face-encoding screen** (`Faceencoding.js`), in `face_encoding.dfy`. It covers:
  - normalisation of the two field spellings;
  - `hasValue` and `getInitials`;
  - the encode gate;
  - the filter chain and counters;
  - the local update after an encoding reply.
- **Employee management** (`EmployeeManagement.js`), in `employee_management.dfy`. It covers:
  - the local status update;
  - the error messages;
  - enable/disable, including the radio guards;
  - search and status filters;
  - counters over the whole list.
- **HR registration form** (`HRregister.js`), in `hr_register.dfy`.
  - The password strength meter.
  - A `RegisterForm` class whose handlers change the form's state in place.

Shared pieces:

- `punches.dfy`: the punch record, the clock arithmetic and time sorting.
- `calendar.dfy`: civil dates, `ymd` text and the days of a month.
- `array_sort.dfy`: the in-place sort behind every `Array.prototype.sort` call.
- `js_string.dfy`: the string built-ins.
- `seqs.dfy`: filter, count and first-appearance de-duplication.
- `wrappers.dfy`: `Option` and `Result`.

Timestamps are local milliseconds since 1970-01-01. The day of a timestamp is `t / 86400000`. The hour-and-minute comparisons of the source (`getHours() + getMinutes() / 60 > 9` and `> 9.25`) are proved equal to whole-minute comparisons (`> 540` and `> 555`).

Behaviour of the code that the model keeps as written:

- **Single-punch days count as present.** `getAttendanceStatus` gives single-punch days the status `'Absent'` with a capital A. The month's `totalPresentDays` only excludes `'absent'`. So every day entry counts as present (`AttendanceReport.TotalPresentDaysIsTotalDays`).
- **A matched OUT overwrites the day's `out`.** An unmatched OUT keeps the latest. In time order both end up as the latest OUT reaching the day (`AttendanceReport.RunOut`).
- **Monthly search.** The search is skipped when the query is blank after trimming. Otherwise the untrimmed, lower-cased query is matched.
- **Daily search can throw.** It reads `employee_name.toLowerCase()` on every row, so one row without a name makes it throw. The model returns a `Failure` in that case.
- **Sorts are stable.** `Array.prototype.sort` keeps tied elements in order. Punches with the same time stay in input order, which decides how an IN and an OUT of the same millisecond pair up. Daily rows with equal values in the sort column keep their order.
- **Daily sort can reorder `processed`.** Without any filter, the daily sort reorders the memoised `processed` array itself.
- **Daily `onTime` is `total - late`.** It therefore includes employees without any IN. `late` also counts employees who have since checked out, unlike the "Late" filter.
- **The arrow shows the first record's type.** The daily row spreads its first record, and `attendence_type` is never refreshed. So the arrow icon shows that record's type (`DailyAttendance.StaleArrow`).
- **Some strict-equality matches hit employees without an id.** `encodeOne` and `updateEmployeeStatus` use strict equality on the id. A missing id therefore matches every employee without one.

Details of the pairing pass that the model follows exactly:

- **A later IN on a day that already has an entry.** The earlier of the two INs is kept, whether or not a shift is recorded yet, and the record is always appended.
- **A matched OUT on an existing day.** Only `out` is set, and only the OUT is appended to the day's records.
- **Records of other types.** They take no part in the pairing but stay in `allRecords`.

## Model

| member | source | states |
|---|---|---|
| Punches.HourOfDayAbove | src/Components/AttendanceReport.js:675-678 | comparing `getHours() + getMinutes()/60` with a threshold of m/60 hours is comparing the minute of the day with m |
| Punches.SortByTime | src/Components/AttendanceReport.js:747-749 | sorting by `attendence_time` in place leaves the array in time order, a permutation of what it held, with punches of the same time in their old order (the stable `Array.prototype.sort`) |
| Punches.CompareTimeIsOrder | src/Components/AttendanceReport.js:747-749 | the time comparator is a total preorder whose ties are exactly the punches with equal times |
| Punches.RecordsOfMembers | src/Components/AttendanceReport.js:728-743 | an employee's collected records are exactly the input records with that employee id |
| ArraySort.Sort | src/Components/AttendanceReport.js:747-749 | the in-place sort with an antisymmetric comparator leaves the insertion sort of the old contents: every neighbour pair in order, a permutation, and, when ties form classes, every class of tied elements in its old order |
| ArraySort.InsertPos | src/Components/AttendanceReport.js:747-749 | the insertion point of an element lies after the last element not above it, with every later element strictly above it |
| ArraySort.InsertionSortSorted | src/Components/DailyAttendance.js:502-519 | insertion sort with an antisymmetric comparator puts every neighbour pair in order |
| ArraySort.InsertBackTies | src/Components/DailyAttendance.js:502-519 | inserting an element passes no element of its tie class, so it lands after all of them |
| ArraySort.InsertionSortStable | src/Components/DailyAttendance.js:502-519 | insertion sort keeps each class of tied elements in input order (stability) |
| ArraySort.AdjacentSortedIsSorted | src/Components/DailyAttendance.js:502-519 | for a transitive comparator, neighbours in order means every pair in order |
| Calendar.YmdRoundTrip | src/Components/AttendanceReport.js:594-599 | `ymd` of a valid date with a four-digit year parses back to that date |
| Calendar.SameYmdIffSameDay | src/Components/AttendanceReport.js:754-755 | two timestamps get the same `ymd` day key exactly when they fall on the same local day |
| Calendar.GetDaysInMonth | src/Components/AttendanceReport.js:609-622 | one entry per day of the month, numbered from 1, each a valid date of that month with its `ymd` text |
| Calendar.MonthDaysCover | src/Components/AttendanceReport.js:609-622 | a day belongs to the month exactly when it is one of the month's entries |
| Calendar.DateOfDay | src/Components/DailyAttendance.js:368-374 | the civil date of a local day number is valid and has that day number |
| AttendanceReport.WorkMs | src/Components/AttendanceReport.js:634-652 | work time is 0 without both punches and always lies in 0..24 h |
| AttendanceReport.WorkMsCases | src/Components/AttendanceReport.js:634-652 | a span of 0..24 h is kept, a longer one capped at 24 h, a negative one of at most a day gets 24 h added, a more negative one gives 0 |
| AttendanceReport.AttendanceStatusCases | src/Components/AttendanceReport.js:655-687 | for each status and label, exactly which punches, work time and lateness produce it, including 'Absent' for single punches and 'absent' for none |
| AttendanceReport.LateThreshold | src/Components/AttendanceReport.js:675-678 | late means an IN after 9:00 by hour plus minutes; 9:00 is on time and 9:01 late |
| AttendanceReport.PairShifts | src/Components/AttendanceReport.js:751-820 | the `forEach` over the sorted records with its `pendingIn` variable builds exactly the day map of the pairing fold |
| AttendanceReport.RunWellFormed | src/Components/AttendanceReport.js:753-820 | every day the loop creates has an IN or an OUT and a record, is not yet finalised, and the pending IN's day exists |
| AttendanceReport.RunPending | src/Components/AttendanceReport.js:757-800 | the pending slot holds the last IN/OUT punch exactly when that punch is an IN; a later IN abandons the earlier one |
| AttendanceReport.TargetOfOut | src/Components/AttendanceReport.js:776-818 | an OUT goes to the day of the pending IN when there is one, else to its own day |
| AttendanceReport.RunRecords | src/Components/AttendanceReport.js:753-820 | a day exists exactly when some IN or OUT reaches it, and its records are those punches in processing order |
| AttendanceReport.RunIn | src/Components/AttendanceReport.js:757-775 | a day's `in` is the earliest IN dated that day, and it is missing exactly when no IN falls on the day |
| AttendanceReport.RunOut | src/Components/AttendanceReport.js:776-818 | in time order a day's `out` is the latest OUT reaching it, matched or not, and is missing when none does |
| AttendanceReport.OvernightShift | src/Components/AttendanceReport.js:776-800 | IN 22:00 and OUT 06:00 next day give one day, keyed by the IN's date, with 8 h and status late |
| AttendanceReport.OutThenInSameDay | src/Components/AttendanceReport.js:753-831 | OUT 08:00 then IN 09:00 share one day whose negative span becomes 23 h, status present |
| AttendanceReport.FinalizeIdempotent | src/Components/AttendanceReport.js:822-831 | computing hours and status a second time changes nothing |
| AttendanceReport.FinalizeDays | src/Components/AttendanceReport.js:822-831 | the loop over the days sets every day's hours and status as the finalisation rule says |
| AttendanceReport.FinalizedDay | src/Components/AttendanceReport.js:822-831 | after the pass every day has a status other than 'absent'; complete days get hours and status from both punches, single punches 0 h and 'Absent' |
| AttendanceReport.ProcessEmployee | src/Components/AttendanceReport.js:746-832 | an employee's records end up sorted (a permutation of the group, same-time records in group order) and the attendance map is the finalised pairing of them |
| AttendanceReport.InDistinctIds | src/Components/AttendanceReport.js:728-743 | an id is among the distinct ids exactly when some record carries it |
| AttendanceReport.GroupsMeaning | src/Components/AttendanceReport.js:727-742 | the first pass creates a group exactly for each id that occurs, holding the details of that id's first record and all its records in input order |
| AttendanceReport.GroupStep | src/Components/AttendanceReport.js:727-742 | one record of the first pass joins its id's group or creates it, and extends the order exactly when the id had no group |
| AttendanceReport.GroupByEmployee | src/Components/AttendanceReport.js:728-743 | the first pass yields one group per distinct id, in order of first appearance, holding that employee's records and first record's details |
| AttendanceReport.ProcessGroup | src/Components/AttendanceReport.js:746-832 | one employee's second pass keeps the details, sorts the records and fills the attendance map |
| AttendanceReport.ProcessData | src/Components/AttendanceReport.js:724-834 | `processedData` has one processed employee per distinct id, in order of first appearance, each with its records in time order and same-time records in input order |
| AttendanceReport.FilterEmployees | src/Components/AttendanceReport.js:836-846 | a blank query keeps everyone; otherwise the order-preserving sublist matching the lower-cased query on id, name, department or designation |
| AttendanceReport.Stats | src/Components/AttendanceReport.js:850-868 | counts employees and records; the present days are the day entries whose status is not 'absent', summed over employees and never above the number of entries; the average is 0 without employees, else present days × 100 over employees × days of the month |
| AttendanceReport.TotalPresentDaysAtMost | src/Components/AttendanceReport.js:853-857 | the present days of all employees never exceed their day entries |
| AttendanceReport.StatsOverProcessedData | src/Components/AttendanceReport.js:850-868 | on the rows `processedData` builds, `totalPresentDays` is the number of day entries of all employees |
| AttendanceReport.UniqueEmployees | src/Components/AttendanceReport.js:851 | `uniqueEmployees` is the number of distinct employee ids in the data |
| AttendanceReport.PresentDaysAll | src/Components/AttendanceReport.js:853-857 | every finalised day of an employee passes the `status !== 'absent'` test |
| AttendanceReport.TotalPresentDaysIsTotalDays | src/Components/AttendanceReport.js:853-857 | `totalPresentDays` equals the number of day entries of all employees |
| AttendanceReport.SumDays | src/Components/AttendanceReport.js:892-899 | the loop over a list of calendar days adds up the work time of exactly those days that have both punches |
| AttendanceReport.TotalMonthMs | src/Components/AttendanceReport.js:890-910 | the CSV loop's total is the sum of work time over the month's days that have both punches |
| AttendanceReport.SumWorkedBounds | src/Components/AttendanceReport.js:890-899 | the month's total lies between 0 and 24 h per day of the month |
| AttendanceReport.SumWorkedNoCompleteDay | src/Components/AttendanceReport.js:892-899 | without any day having both punches the total is 0 |
| DailyAttendance.TouchRow | src/Components/DailyAttendance.js:425-438 | the in-place updates one record makes to its row are exactly the row step of the fold: last punch set, first IN set once, status and pending IN by type, device replaced |
| DailyAttendance.SortedCopy | src/Components/DailyAttendance.js:410 | the copy of the day's records is in time order, a permutation of them, with same-time records in input order |
| DailyAttendance.FinishRows | src/Components/DailyAttendance.js:441-460 | the loop over the rows computes every row's duration, in order |
| DailyAttendance.FoldDaily | src/Components/DailyAttendance.js:412-439 | the `forEach` filling the map of rows builds exactly the rows of the fold over the sorted records |
| DailyAttendance.ProcessDaily | src/Components/DailyAttendance.js:406-461 | a sorted copy of the data (a permutation in time order, same-time records in input order) is folded into rows, each with its duration, in first-appearance order |
| DailyAttendance.Finish | src/Components/DailyAttendance.js:441-460 | one row per employee id, in order, each with its duration computed |
| DailyAttendance.DailyRunKeys | src/Components/DailyAttendance.js:412-424 | the rows are for exactly the distinct employee ids, listed in order of their first record |
| DailyAttendance.DailyRunRows | src/Components/DailyAttendance.js:412-439 | a row holds the first record spread, the first IN, the last OUT, the last punch, the last record's device, and the status of the last IN/OUT punch |
| DailyAttendance.ProcessedRow | src/Components/DailyAttendance.js:412-439 | the same facts for the row of one employee, stated over that employee's records |
| DailyAttendance.FirstInEarliest | src/Components/DailyAttendance.js:428-429 | in time order the first IN exists exactly when some IN does and is no later than any IN |
| DailyAttendance.LastOfKindLatest | src/Components/DailyAttendance.js:432-434 | in time order the last OUT exists exactly when some OUT does, is the time of one of them and is no earlier than any OUT: the latest OUT |
| DailyAttendance.LastOfKindMember | src/Components/DailyAttendance.js:432-434 | the last punch of a type is the time of some record of that type |
| DailyAttendance.GrossDuration | src/Components/DailyAttendance.js:441-456 | duration is 0 without an IN, last punch minus first IN otherwise, or `now` minus first IN (at least 0) while checked in today |
| DailyAttendance.DailyStatuses | src/Components/DailyAttendance.js:419-436 | a row's status is always 'absent', 'present' or 'out' |
| DailyAttendance.StaleArrow | src/Components/DailyAttendance.js:414-422 | after IN then OUT the row is 'out' but still carries the IN type used for the arrow |
| DailyAttendance.Departments | src/Components/DailyAttendance.js:464-467 | 'All' first, then each truthy department of the rows once, in order of first appearance among the rows (the `Set`'s iteration order) |
| Seqs.DedupOrder | src/Components/DailyAttendance.js:464-467 | de-duplication lists the distinct elements in the order of their first occurrence, as a `Set` or `Map` filled in order iterates |
| DailyAttendance.IsLateHour | src/Components/DailyAttendance.js:490 | late means a first IN whose hour plus minutes exceeds 9.25 |
| DailyAttendance.SearchRows | src/Components/DailyAttendance.js:474-480 | throws exactly when a row has no name; otherwise keeps the rows whose name or id contains the lower-cased text |
| DailyAttendance.StatusOptions | src/Components/DailyAttendance.js:488-499 | 'Late' and 'On Time' split the present rows by the 9.25 rule, 'Checked Out' picks 'out' rows, 'Working' present rows |
| DailyAttendance.Filtered | src/Components/DailyAttendance.js:470-499 | the rows kept are those passing each active filter, and the search throws as above |
| DailyAttendance.FilteredOrder | src/Components/DailyAttendance.js:470-499 | the filters keep the rows' order |
| DailyAttendance.CompareMeaning | src/Components/DailyAttendance.js:501-519 | ascending orders by the column value (null as '' or time 0) and ties only equal values; descending negates every comparison |
| DailyAttendance.WorkHoursOrder | src/Components/DailyAttendance.js:458 | sorting by hours orders by milliseconds worked |
| DailyAttendance.ComparatorIsOrder | src/Components/DailyAttendance.js:501-519 | the comparator is antisymmetric and transitive for every column and direction, and two rows tie exactly when their values in the column are equal |
| DailyAttendance.FilterAndSort | src/Components/DailyAttendance.js:470-522 | the result is the filtered rows sorted by the comparator, rows with equal values keeping their filtered order; a search over a nameless row fails; without filters it is `processed` sorted in place, otherwise a new array and `processed` untouched |
| DailyAttendance.SortRows | src/Components/DailyAttendance.js:502-519 | `result.sort` leaves the rows in column order, permuted, with rows of equal value in their old order |
| DailyAttendance.HandleSort | src/Components/DailyAttendance.js:543-549 | the new key is the clicked one, descending exactly when it was already the key and ascending |
| DailyAttendance.HandleSortToggles | src/Components/DailyAttendance.js:543-549 | clicking the same column again flips the direction; a new column starts ascending |
| DailyAttendance.Stats | src/Components/DailyAttendance.js:526-538 | counts of rows, present rows, out rows and late first INs, with present + out and late bounded by the total |
| DailyAttendance.OnTimeCount | src/Components/DailyAttendance.js:526-540 | `onTime` counts the rows that are not late, rows without an IN included, and `late` is at least the 'Late' filter's count |
| DailyAttendance.FetchWindow | src/Components/DailyAttendance.js:368-381 | `from_date` is the selected day and `to_date` the next calendar day, as YYYY-MM-DD |
| FaceEncoding.HasValueMeaning | src/Components/Faceencoding.js:530 | a value exists exactly for text with a non-blank character, and such a value is truthy |
| FaceEncoding.NormalizeFields | src/Components/Faceencoding.js:624-638 | each two-spelling field takes the camelCase value when truthy, else the snake_case one; `is_active` is false only when missing or null |
| FaceEncoding.Load | src/Components/Faceencoding.js:619-645 | a reply body that is an array is normalised row by row, anything else gives no rows; a failure gives the load error |
| FaceEncoding.InitialsAreWordStarts | src/Components/Faceencoding.js:553 | the first letters of `split(' ')` are the characters that start a word, empty pieces contributing nothing |
| FaceEncoding.GetInitials | src/Components/Faceencoding.js:551-554 | '?' for a falsy name, else the first two upper-cased word initials |
| FaceEncoding.GetInitialsExample | src/Components/Faceencoding.js:551-554 | "jo li" gives "JL" |
| FaceEncoding.BlankNameHasNoInitials | src/Components/Faceencoding.js:552-553 | a name of spaces is truthy and gives the empty string, not '?' |
| FaceEncoding.FilteredEmployees | src/Components/Faceencoding.js:650-681 | the employees shown are those with a profile image that pass the active, encoding and search filters |
| FaceEncoding.FilterChainIsOneFilter | src/Components/Faceencoding.js:650-681 | the chain of filters is one filter by the conjunction, so order is kept |
| FaceEncoding.BlankQueryKeepsAll | src/Components/Faceencoding.js:668-678 | a query of spaces trims to nothing and filters nobody out |
| FaceEncoding.ShownCardsCanEncode | src/Components/Faceencoding.js:538 | every card shown can encode exactly when it is not busy |
| FaceEncoding.Stats | src/Components/Faceencoding.js:683-688 | counts over the shown list, active and encoded never above the total |
| FaceEncoding.StatsUnderFilters | src/Components/Faceencoding.js:650-688 | with 'active' every shown employee is counted active, with 'inactive' none; likewise 'encoded'/'pending' |
| FaceEncoding.Encoded | src/Components/Faceencoding.js:695-704 | the updated entry has status 'Encoded', is active exactly when the reply's `is_active` is true, holds the reply's encoding or `true` when there is none, and is otherwise the entry it was |
| FaceEncoding.EncodeOne | src/Components/Faceencoding.js:690-713 | a reply updates exactly the entries with that id and keeps the length; a failure leaves the list and alerts the server error or a fixed text |
| FaceEncoding.EncodeOneEffect | src/Components/Faceencoding.js:696-707 | after a reply the id's entries are encoded, leave the 'pending' view, and the encoded count does not drop |
| FaceEncoding.EncodeOneIdempotent | src/Components/Faceencoding.js:696-707 | applying the same reply twice is applying it once |
| EmployeeManagement.UpdateEmployeeStatus | src/Components/EmployeeManagement.js:503-509 | entries with that id get the new `is_active`, all other entries and the length are unchanged |
| EmployeeManagement.UpdateOverrides | src/Components/EmployeeManagement.js:503-509 | a second update of the same id overrides the first; repeating one changes nothing |
| EmployeeManagement.UpdateNoChange | src/Components/EmployeeManagement.js:503-509 | setting the status the matching entries already have leaves the list as it was |
| EmployeeManagement.ErrorMessageMeaning | src/Components/EmployeeManagement.js:511-517 | both messages name the action; 'Error ' leads exactly when the server sent an error, whose text then appears |
| EmployeeManagement.Toggle | src/Components/EmployeeManagement.js:519-561 | success updates the list and clears the error, failure keeps the list and sets the message, the in-flight id is always cleared |
| EmployeeManagement.ToggleEffect | src/Components/EmployeeManagement.js:519-561 | after success the id's entries have the new status; after failure the counters are unchanged |
| EmployeeManagement.RadioChange | src/Components/EmployeeManagement.js:699-718 | nothing happens while the employee's request is in flight; Enable acts only on a disabled employee and Disable only on an enabled one |
| EmployeeManagement.RadioFlips | src/Components/EmployeeManagement.js:699-718 | a successful radio change flips the employee's status |
| EmployeeManagement.Load | src/Components/EmployeeManagement.js:480-497 | a reply replaces the list and clears the error; a failure keeps it and sets the network message |
| EmployeeManagement.FilteredEmployees | src/Components/EmployeeManagement.js:563-576 | the employees kept match both the search on id or name and the status filter |
| EmployeeManagement.EmptyQuery | src/Components/EmployeeManagement.js:565-567 | an empty query matches exactly the employees with an id or a name |
| EmployeeManagement.FilterViews | src/Components/EmployeeManagement.js:563-576 | every view (whatever the status filter) keeps the employees in their input order, 'enabled' and 'disabled' split 'all', and any other filter value shows nobody |
| EmployeeManagement.Stats | src/Components/EmployeeManagement.js:578-583 | enabled + disabled = total over the whole list, disabled being the inactive count |
| HrRegister.StrengthScore | src/Components/HRregister.js:369-375 | the score is 25 per criterion met, so one of 0, 25, 50, 75, 100 |
| HrRegister.StrengthExtremes | src/Components/HRregister.js:369-375 | the empty password scores 0; 100 exactly with all four criteria, 0 exactly with none |
| HrRegister.StrengthMonotone | src/Components/HRregister.js:369-375 | typing more characters never lowers the score |
| HrRegister.ColourByCriteria | src/Components/HRregister.js:376 | red for at most one criterion, amber for two, green for three or four |
| HrRegister.Change | src/Components/HRregister.js:365-367 | the named field takes the value |
| HrRegister.ChangeIsLocal | src/Components/HRregister.js:365-367 | editing one field leaves the other fields and the message alone |
| HrRegister.Submit | src/Components/HRregister.js:380-410 | on mismatch only the message and flag change and nothing is sent; otherwise the fields are sent, success resets the form, failure keeps it |
| HrRegister.SubmitMeaning | src/Components/HRregister.js:380-410 | a request is sent exactly when the passwords match; success is reported exactly for an accepted request; a rejection shows the server error or the fixed text |
| HrRegister.ResubmitAfterSuccess | src/Components/HRregister.js:399-401 | after success the empty form's passwords match, so a second submit sends an empty request |
| HrRegister.RegisterForm.constructor | src/Components/HRregister.js:350-360 | the form starts with empty fields, no message and nothing sent |
| HrRegister.RegisterForm.HandleChange | src/Components/HRregister.js:365-367 | the object's fields change as `Change` says |
| HrRegister.RegisterForm.Strength | src/Components/HRregister.js:369-378 | the meter shows the score and colour of the current password |
| HrRegister.RegisterForm.HandleSubmit | src/Components/HRregister.js:380-410 | the object's state changes as `Submit` says |

## Left out

- ArraySort.Sort: the engine's own sort algorithm is not modelled. The model is an insertion sort, proved ordered, a permutation and stable. For the comparators here, whose ties form classes, a stable sort has only one possible result, but that uniqueness is not proved.
- Character handling:
  - Case mapping covers ASCII letters only.
  - `trim` covers the common white-space characters only.
  - Lengths count characters rather than UTF-16 code units.
  - String comparison (`<` in the daily sort) compares code points, whereas JavaScript compares UTF-16 code units. A character above U+FFFF therefore sorts above U+E000–U+FFFF in the model but below them in the source.
- Time zones and ISO text parsing in `new Date(...)` are not modelled. Timestamps are already-resolved local milliseconds.
  - In the daily view the selected day is a day number, so the UTC parsing of `new Date('YYYY-MM-DD')` is not modelled.
  - The daily comparator reads a missing time as 0, which the model takes as local rather than UTC epoch.
- Records with a missing or unparsable time (NaN dates) are not modelled: every punch has a time.
- The clock is a parameter. The daily view receives "now" and whether the selected day is today. The auto-refresh interval and the five-second error reset are timers and are not modelled.
- Floating point is not modelled. Work time is in integer milliseconds and hours are exact reals. The average attendance is the exact ratio before `toFixed(1)`, and the CSV total is exact before `toFixed(2)`.
- CSV cell text (`day_N` strings, `fmtTime`) and all rendering, styling and locale formatting are not modelled.
- Network calls are inputs. Replies and failures are parameters; request headers, tokens and URLs are not modelled.
- The face-encoding card's `busy` flag and its async lifecycle are not modelled; only the `canEncode` gate is. The error `encodeOne` re-throws after its alert is not modelled.
- Fields of other JavaScript types are not modelled, such as numeric ids or non-boolean `is_active` values. In the employee management and daily views, `null` and `undefined` are one `None`.
- EmployeeManagement.Toggle: each request is settled in one step, so two toggles in flight at once are not modelled; in the source the second overwrites `processingId` and the first one's `finally` clears it while the second is pending. The idle `processingId` is a value distinct from every id, whereas the source's idle `null` equals a `null` `employee_id`, which keeps that employee's radios disabled.
- `handleChange` for input names other than the four fields is not modelled.
- Dynamic type errors other than the daily search's missing name are not modelled, such as a non-string name passed to `getInitials`.
