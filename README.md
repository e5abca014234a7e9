# Shift-Bookk admin dashboard — a Dafny model

Shift-Bookk is a React and Firebase dashboard for scheduling shifts, handling
time-off requests and reporting on worked hours. This project models the
dashboard's client-side logic in Dafny and proves properties of it:

- the date helpers (start and end of day, week, month and year, range tests,
  durations, the `YYYY-MM-DD` input format, relative-time units);
- the shift form (defaults, validation, change handlers);
- the month calendar (grid cells, events per day, month navigation);
- the schedule calendar (sorting fetched shifts, grouping by date, the local
  effects of add, edit and delete, the shift dialog);
- both analytics pages (time windows, per-key counts and sums, top-5 lists);
- the time-off table (status filter, pending-only actions, the status write);
- the message thread and contact search;
- the sign-up wizard's checks and error messages;
- the layout's menu highlighting, role gating and drawer;
- the route guard.

Dates follow the ECMAScript `Date` algorithms (day number, `MakeDay`,
`MakeDate`, `setDate`, `setMonth`, `setFullYear`, including the two-digit
year rule of the `Date` constructor). Local time is taken to be UTC.

Firestore and Firebase Auth are outside the model:

- a read or write that can fail becomes a `readOk`/`writeOk` flag;
- a document id issued by Firestore becomes a parameter;
- `new Date()` and `Timestamp.now()` become a `now` parameter.

Hours are kept as integer milliseconds.

Modules, one per source file:

| file | module | source |
|---|---|---|
| wrappers.dfy | `Wrappers` | `Option` |
| civil_time.dfy | `CivilTime` | ECMAScript time values and calendar fields |
| seqs.dfy | `Seqs` | filter, map, group-by, stable insertion sort, top-n |
| text.dfy | `Text` | `trim`, ASCII `toLowerCase`, `includes`, `startsWith`, numerals |
| types.dfy | `Types` | admin-dashboard/src/types.ts |
| time_helpers.dfy | `TimeHelpers` | admin-dashboard/src/utils/timeHelpers.ts |
| shift_form.dfy | `ShiftFormPage` | admin-dashboard/src/components/ShiftForm.tsx |
| calendar.dfy | `CalendarPage` | admin-dashboard/src/pages/Calendar.tsx |
| schedule_calendar.dfy | `ScheduleCalendarPage` | admin-dashboard/src/pages/schedule/ScheduleCalendar.tsx |
| admin_analytics.dfy | `AdminAnalyticsPage` | admin-dashboard/src/pages/admin/Analytics.tsx |
| analytics.dfy | `AnalyticsPage` | admin-dashboard/src/pages/Analytics.tsx |
| time_off_management.dfy | `TimeOffManagementPage` | admin-dashboard/src/pages/admin/TimeOffManagement.tsx |
| messages.dfy | `MessagesPage` | admin-dashboard/src/pages/Messages.tsx |
| signup.dfy | `SignupPage` | admin-dashboard/src/pages/Signup.tsx |
| dashboard_layout.dfy | `DashboardLayout` | admin-dashboard/src/components/layout/DashboardLayout.tsx |
| protected_route.dfy | `ProtectedRoute` | admin-dashboard/src/components/ProtectedRoute.tsx |

Behaviour that comes from a component's state and handlers is a `class`:

- its fields are the `useState` variables;
- each handler is a method whose `ensures` gives the complete new state.

Loops that build a list are methods with loop invariants, proved equal to
a specification function:

- the calendar's two push loops;
- `fetchShifts`' copy-and-sort;
- the `shiftsByDate` reduce;
- the `Map` and counter updates of the analytics pages.

Pure computations are functions, and lemmas state their properties.

Where the code and its documentation disagree, the model follows the code:

- `getEndOfMonth` is documented as the last day of the input's month (see
  Findings).
- A shift's end after its start is checked only by the shift form. The
  schedule calendar saves any times it is given.
- Approving or rejecting is limited to pending requests only by which buttons
  are shown. The write itself accepts any request.

## Model

| member | source | states |
|---|---|---|
| TimeHelpers.GetStartOfDay | admin-dashboard/src/utils/timeHelpers.ts:142-146 | same calendar day as the input, clock 00:00:00.000, so the result is at most the input and less than a day before it |
| TimeHelpers.GetEndOfDay | admin-dashboard/src/utils/timeHelpers.ts:153-157 | same calendar day, clock 23:59:59.999, at or after the input and less than a day after it |
| TimeHelpers.WeekOffsetLands | admin-dashboard/src/utils/timeHelpers.ts:167-171 | stepping back by the computed offset (0..6 days) lands on a Sunday, or on a Monday with `startOnMonday` |
| TimeHelpers.GetStartOfWeek | admin-dashboard/src/utils/timeHelpers.ts:165-173 | midnight of a Sunday (Monday with `startOnMonday`) 0 to 6 days on or before the input |
| TimeHelpers.GetEndOfWeek | admin-dashboard/src/utils/timeHelpers.ts:181-185 | 23:59:59.999 of the day six days after the week's start, never before the input |
| TimeHelpers.GetStartOfMonth | admin-dashboard/src/utils/timeHelpers.ts:192-196 | day 1 of the input's month and year at midnight, not after the input |
| TimeHelpers.GetEndOfMonth | admin-dashboard/src/utils/timeHelpers.ts:203-208 | as written: the last day of the input's month when the input's date exists in the next month, otherwise the last day of the next month; clock 23:59:59.999 |
| TimeHelpers.EndOfMonthAfter | admin-dashboard/src/utils/timeHelpers.ts:203-208 | the written end of month is never before the input |
| TimeHelpers.GetEndOfMonthJanuary31 | admin-dashboard/src/utils/timeHelpers.ts:203-208 | 31 January 2023 gives 28 February as written, and 31 January with the corrected `EndOfMonth` |
| TimeHelpers.EndOfMonth | admin-dashboard/src/utils/timeHelpers.ts:198-208 | corrected: the last day of the input's own month (28 to 31 by the Gregorian rule), 23:59:59.999, at or after the input |
| TimeHelpers.DateRangeForPeriod | admin-dashboard/src/utils/timeHelpers.ts:216-251 | for every period start <= end; day, week and month ranges contain the input; the day range is exactly start and end of day, the week range start and end of the Sunday-based week (ending six days after it starts), the month range start and end of month |
| TimeHelpers.YearRange | admin-dashboard/src/utils/timeHelpers.ts:238-244 | for years outside 0..99: 1 January 00:00:00.000 to 31 December 23:59:59.999 of the input's year, containing the input |
| TimeHelpers.YearRangeTwoDigitYear | admin-dashboard/src/utils/timeHelpers.ts:239-240 | as written, for years 0..99: the range starts on 1 January of year + 1900, after the input |
| TimeHelpers.YearRangeOf | admin-dashboard/src/utils/timeHelpers.ts:238-244 | corrected: 1 January to 31 December of the input's own year for every year, containing the input |
| TimeHelpers.InDayRangeIffToday | admin-dashboard/src/utils/timeHelpers.ts:305-312 | lying between start and end of today (inclusive) is exactly having today's date, month and year |
| TimeHelpers.PastNotInFuture | admin-dashboard/src/utils/timeHelpers.ts:109-135 | a past timestamp (strictly before now) is never in a range starting at now; for a present timestamp, past is the complement of that range; missing timestamps are neither |
| TimeHelpers.HoursBetweenMs | admin-dashboard/src/utils/timeHelpers.ts:88-101 | 0 when either time is missing, otherwise the signed difference end - start |
| TimeHelpers.DurationMs | admin-dashboard/src/utils/timeHelpers.ts:269-280 | 0 when either time is missing or the end is not after the start, otherwise end - start |
| TimeHelpers.DurationIsClampedDifference | admin-dashboard/src/utils/timeHelpers.ts:269-280 | the duration is the signed difference clamped at 0 |
| TimeHelpers.FormatDateForInput | admin-dashboard/src/utils/timeHelpers.ts:319-327 | empty exactly for a missing date |
| TimeHelpers.FormatDateRoundTrip | admin-dashboard/src/utils/timeHelpers.ts:319-327 | parsing `YYYY-MM-DD` back gives the input's calendar date (years >= 0) |
| TimeHelpers.FormatDateYearDigits | admin-dashboard/src/utils/timeHelpers.ts:322-326 | the string is at least ten characters exactly when the year is at least 1000 |
| TimeHelpers.RelativeTime | admin-dashboard/src/utils/timeHelpers.ts:43-78 | unit and signed magnitude: the sign is negative for the past and positive for the future; each unit's magnitude stays below the next unit's threshold; the value itself is stated by `RelativeTimeValue` |
| TimeHelpers.RelativeTimePast | admin-dashboard/src/utils/timeHelpers.ts:43-78 | for a past date the unit is decided by the elapsed whole seconds: below 60, 3600, 86400, 30 days, 360 days, or above |
| TimeHelpers.RelativeTimeValue | admin-dashboard/src/utils/timeHelpers.ts:43-78 | the value for every unit: minus the elapsed time floored to whole minutes, hours, days, 30-day months or 365-day years; for seconds -1, 0 or 1 by the sign of the whole seconds |
| TimeHelpers.RelativeTimeFuture | admin-dashboard/src/utils/timeHelpers.ts:43-78 | for a future date the unit is decided by the time ahead: at most 59 seconds, 59 minutes, 23 hours, 29 days, 330 days, or more, each unit exactly on its range |
| TimeHelpers.RelativeTimeAlmostHourAhead | admin-dashboard/src/utils/timeHelpers.ts:55-62 | 3599 seconds ahead gives "in 1 hour": the floor of the negated elapsed seconds reaches -3600 |
| TimeHelpers.RelativeTimeZeroYears | admin-dashboard/src/utils/timeHelpers.ts:70-77 | 362 days ago gives 0 years: months stop at 360 days but years divide by 365 |
| ShiftFormPage.InitialFormData | admin-dashboard/src/components/ShiftForm.tsx:35-43 | each default (empty title and employee, now, pending, not recurring) is used only where the initial data lacks the field; all other fields come from the initial data |
| ShiftFormPage.MissingTextIff | admin-dashboard/src/components/ShiftForm.tsx:100-106 | `!value?.trim()` holds exactly for a missing or blank value |
| ShiftFormPage.ValidationErrors | admin-dashboard/src/components/ShiftForm.tsx:97-121 | each field has an error exactly when its check fails, with that check's message; the end-time error says "required" when the end is missing and "after start" otherwise |
| ShiftFormPage.ValidIff | admin-dashboard/src/components/ShiftForm.tsx:97-121 | no errors exactly when title and employee id are non-blank, both times are present and the end is strictly after the start |
| ShiftFormPage.ShiftForm.constructor | admin-dashboard/src/components/ShiftForm.tsx:35-45 | the form starts from the merged defaults with no errors |
| ShiftFormPage.ShiftForm.InitialDataChanged | admin-dashboard/src/components/ShiftForm.tsx:48-60 | new initial data re-merges the defaults; absent initial data keeps the form |
| ShiftFormPage.ShiftForm.HandleChange | admin-dashboard/src/components/ShiftForm.tsx:62-70 | sets the one field; that field's error is blanked only when it was set and non-empty; other errors unchanged |
| ShiftFormPage.ShiftForm.HandleSwitchChange | admin-dashboard/src/components/ShiftForm.tsx:72-75 | sets `isRecurring` only |
| ShiftFormPage.ShiftForm.HandleSelectChange | admin-dashboard/src/components/ShiftForm.tsx:77-81 | sets `status` only |
| ShiftFormPage.ShiftForm.HandleStartTimeChange | admin-dashboard/src/components/ShiftForm.tsx:83-88 | sets the start to the picked time, or to now when cleared |
| ShiftFormPage.ShiftForm.HandleEndTimeChange | admin-dashboard/src/components/ShiftForm.tsx:90-95 | sets the end to the picked time, or to now when cleared |
| ShiftFormPage.ShiftForm.ValidateForm | admin-dashboard/src/components/ShiftForm.tsx:97-121 | the error map is rebuilt key by key and equals `ValidationErrors`; the result is true exactly when it is empty |
| ShiftFormPage.ShiftForm.HandleSubmit | admin-dashboard/src/components/ShiftForm.tsx:123-129 | the form data is submitted exactly when validation finds no error |
| CalendarPage.GetDaysInMonth | admin-dashboard/src/pages/Calendar.tsx:49-51 | the length of the month (two-digit years read as 19xx), between 28 and 31 |
| CalendarPage.DaysInMonthGregorian | admin-dashboard/src/pages/Calendar.tsx:49-51 | that length is the Gregorian one: 29 exactly for February of a leap year, 28 for February otherwise |
| CalendarPage.GetFirstDayOfMonth | admin-dashboard/src/pages/Calendar.tsx:54-56 | the weekday (0 = Sunday) of day 1 |
| CalendarPage.CalendarCellsAreTheMonth | admin-dashboard/src/pages/Calendar.tsx:59-78 | `firstDay` empty cells, then one cell per day; cell j is day j - firstDay + 1 of the month and one day after the cell before it, and falls on weekday j mod 7, the column it is drawn in |
| CalendarPage.Calendar.constructor | admin-dashboard/src/pages/Calendar.tsx:14 | the calendar starts at now |
| CalendarPage.Calendar.GenerateCalendarDays | admin-dashboard/src/pages/Calendar.tsx:59-78 | the two push loops build exactly `CalendarDays` of the current month |
| CalendarPage.GetEventsForDay | admin-dashboard/src/pages/Calendar.tsx:81-89 | no events for an empty cell; otherwise exactly the events on the same date, month and year, each as many times as it occurs, in order |
| CalendarPage.SampleEventsOnTheirDays | admin-dashboard/src/pages/Calendar.tsx:17-46 | a sample event is listed on the 15th, 18th, 20th or 25th of the current month exactly when it falls there |
| CalendarPage.Calendar.GoToPreviousMonth | admin-dashboard/src/pages/Calendar.tsx:97-99 | the current date becomes day 1 of the previous month |
| CalendarPage.Calendar.GoToNextMonth | admin-dashboard/src/pages/Calendar.tsx:101-103 | the current date becomes day 1 of the next month |
| CalendarPage.Calendar.GoToToday | admin-dashboard/src/pages/Calendar.tsx:105-107 | the current date becomes now |
| CalendarPage.NextMonthLands | admin-dashboard/src/pages/Calendar.tsx:101-103 | outside years 0..99, next month lands on day 1 of the following calendar month, December rolling into January (years 0..99: see Findings) |
| CalendarPage.PreviousMonthLands | admin-dashboard/src/pages/Calendar.tsx:97-99 | outside years 0..99, previous month lands on day 1 of the preceding calendar month, January rolling into December (years 0..99: see Findings) |
| CalendarPage.NextThenPrevious | admin-dashboard/src/pages/Calendar.tsx:97-103 | outside years -1..99, next then previous returns to day 1 of the starting month |
| CalendarPage.NavigationTwoDigitYear | admin-dashboard/src/pages/Calendar.tsx:97-103 | as written, in years 0..99 both buttons land next to the same month 1900 years later |
| CalendarPage.PreviousFromJanuary50 | admin-dashboard/src/pages/Calendar.tsx:97-99 | as written, the previous month from January of year 50 is 1 December 1949 |
| CalendarPage.IntendedNavigationLands | admin-dashboard/src/pages/Calendar.tsx:97-103 | the intended navigation lands on day 1 of the following or preceding calendar month in every year |
| CalendarPage.IntendedNextThenPrevious | admin-dashboard/src/pages/Calendar.tsx:97-103 | with the intended navigation, next then previous returns to day 1 of the starting month in every year |
| ScheduleCalendarPage.FindDate | admin-dashboard/src/pages/schedule/ScheduleCalendar.tsx:62 | finds a group of that date exactly when one exists |
| ScheduleCalendarPage.ExactlyOneGroup | admin-dashboard/src/pages/schedule/ScheduleCalendar.tsx:60-67 | grouping gives distinct dates, a group for every shift's date, and each shift in exactly the group of its own date |
| ScheduleCalendarPage.NewShift | admin-dashboard/src/pages/schedule/ScheduleCalendar.tsx:148-160 | the added shift has the new document id, the title or "Untitled Shift" when empty or missing, the employee or "", the form's times, description and location, and now as created and updated time |
| ScheduleCalendarPage.EditShifts | admin-dashboard/src/pages/schedule/ScheduleCalendar.tsx:171-180 | same length; shifts with another id unchanged; each shift with the id overlaid with the form data and stamped now |
| ScheduleCalendarPage.EditIdempotent | admin-dashboard/src/pages/schedule/ScheduleCalendar.tsx:171-180 | applying the same edit twice equals applying it once |
| ScheduleCalendarPage.EditKeepsOthers | admin-dashboard/src/pages/schedule/ScheduleCalendar.tsx:171-180 | when the form keeps the id, the shifts with other ids are exactly as before, in order, and the number with this id is unchanged |
| ScheduleCalendarPage.DeleteShifts | admin-dashboard/src/pages/schedule/ScheduleCalendar.tsx:195 | exactly the shifts with another id remain, in their order |
| ScheduleCalendarPage.DeleteCount | admin-dashboard/src/pages/schedule/ScheduleCalendar.tsx:195 | deleting removes exactly the shifts with that id; deleting twice equals deleting once |
| ScheduleCalendarPage.ShiftsFromDocs | admin-dashboard/src/pages/schedule/ScheduleCalendar.tsx:90-103 | one shift per document, in order, each with the document's id in place of any stored id |
| ScheduleCalendarPage.SortByStart | admin-dashboard/src/pages/schedule/ScheduleCalendar.tsx:106 | the shifts sorted by start time, a permutation of the input |
| ScheduleCalendarPage.ScheduleCalendar.constructor | admin-dashboard/src/pages/schedule/ScheduleCalendar.tsx:51-56 | no shifts, loading, dialog closed, nothing selected, new-shift mode |
| ScheduleCalendarPage.ScheduleCalendar.FetchShifts | admin-dashboard/src/pages/schedule/ScheduleCalendar.tsx:86-114 | on success the list is the documents sorted by start time, a permutation, with equal start times in document order; on failure it is unchanged; loading ends either way |
| ScheduleCalendarPage.ScheduleCalendar.ShiftsByDate | admin-dashboard/src/pages/schedule/ScheduleCalendar.tsx:60-67 | the reduce loop builds one group per distinct date in first-seen order, each holding exactly that date's shifts in list order |
| ScheduleCalendarPage.ScheduleCalendar.HandleOpenShiftDialog | admin-dashboard/src/pages/schedule/ScheduleCalendar.tsx:120-129 | opens the dialog; a given shift is selected in edit mode, none means new-shift mode |
| ScheduleCalendarPage.ScheduleCalendar.HandleCloseShiftDialog | admin-dashboard/src/pages/schedule/ScheduleCalendar.tsx:131-134 | closes the dialog and clears the selection |
| ScheduleCalendarPage.ScheduleCalendar.HandleSaveShift | admin-dashboard/src/pages/schedule/ScheduleCalendar.tsx:136-189 | new mode appends `NewShift` after a successful write with both times; edit mode applies `EditShifts` for a selected non-empty id; a failed write changes nothing and leaves the dialog open; otherwise the dialog closes |
| ScheduleCalendarPage.ScheduleCalendar.HandleDeleteShift | admin-dashboard/src/pages/schedule/ScheduleCalendar.tsx:191-201 | with a selected non-empty id and a successful delete, the list is `DeleteShifts` and the dialog closes; otherwise nothing changes |
| Seqs.Tally | admin-dashboard/src/pages/admin/Analytics.tsx:95-101 | the counter loop builds the groups of `GroupBy`: keys are the distinct keys in first-seen order, counts add up to the input length, totals to the input's sum |
| AdminAnalyticsPage.WindowStart | admin-dashboard/src/pages/admin/Analytics.tsx:75-84 | same clock time as now; week: exactly 7 days back; month: back by the previous month's length; year: back 365 or 366 days (the year holding the February in between); always before now |
| AdminAnalyticsPage.TimeRangeData | admin-dashboard/src/pages/admin/Analytics.tsx:86-90 | exactly the shifts with a start time in [window start, now], each as many times as it occurs, in order |
| AdminAnalyticsPage.EmployeeLabel | admin-dashboard/src/pages/admin/Analytics.tsx:104 | "Employee ", then the first five characters of the id (fewer when shorter), then "..." |
| AdminAnalyticsPage.EmployeeHoursData | admin-dashboard/src/pages/admin/Analytics.tsx:93-107 | one entry per distinct employee of the window in first-seen order, holding the sum of that employee's durations; the entries add up to the window's total |
| AdminAnalyticsPage.ShiftStatusData | admin-dashboard/src/pages/admin/Analytics.tsx:109-120 | one entry per status present in the window in first-seen order, valued at its number of shifts (at least 1); the values add up to the window's size |
| AdminAnalyticsPage.TotalStats | admin-dashboard/src/pages/admin/Analytics.tsx:122-137 | the window's size, its total duration, the average (floor) for a non-empty window, and the number of distinct employees |
| AdminAnalyticsPage.StatsAgree | admin-dashboard/src/pages/admin/Analytics.tsx:122-137 | the distinct employees are the hours chart's entries and no more than the shifts; an empty window has 0 total and 0 average; the figures match the charts' sums |
| AnalyticsPage.GetStartDate | admin-dashboard/src/pages/Analytics.tsx:94-106 | 'month' and 'year' go back as in the admin window; 'week' and any other string go back exactly 7 days; always before now |
| AnalyticsPage.NameOr | admin-dashboard/src/pages/Analytics.tsx:136 | never empty: the assigned name when present and non-empty, else "Unknown" |
| AnalyticsPage.ProcessShiftData | admin-dashboard/src/pages/Analytics.tsx:108-128 | one entry per distinct start date in first-seen order, counting that day's shifts (at least 1) and summing their durations; counts add up to the shifts, durations to the total |
| AnalyticsPage.ProcessEmployeeHours | admin-dashboard/src/pages/Analytics.tsx:130-148 | tallies the shifts in one pass and returns exactly the chart TopEmployees specifies, at most 5 entries |
| AnalyticsPage.TopEmployeesFacts | admin-dashboard/src/pages/Analytics.tsx:130-148 | that chart has at most 5 entries, non-increasing hours, one per distinct employee key; each holds its employee's sum; no left-out employee has more hours than an included one; with at most 5 employees the entries add up to the total |
| AnalyticsPage.TopEmployeesOrdered | admin-dashboard/src/pages/Analytics.tsx:145-147 | the top list has at most 5 entries in non-increasing hours |
| AnalyticsPage.TopEmployeesMembers | admin-dashboard/src/pages/Analytics.tsx:131-143 | distinct employee keys; each entry is that key's group with its count and sum |
| AnalyticsPage.TopEmployeesRank | admin-dashboard/src/pages/Analytics.tsx:145-147 | every employee left out has no more hours than every employee kept |
| AnalyticsPage.ProcessTimeOffStats | admin-dashboard/src/pages/Analytics.tsx:150-166 | tallies the requests in one pass and returns exactly the chart TopTypes specifies, at most 5 entries, each counting at least 1 |
| AnalyticsPage.TopTypesFacts | admin-dashboard/src/pages/Analytics.tsx:150-166 | that chart has at most 5 entries, non-increasing counts (each at least 1), one per distinct type key; no left-out type is more frequent than a kept one; with at most 5 types the counts add up to the requests |
| AnalyticsPage.TopTypesOrdered | admin-dashboard/src/pages/Analytics.tsx:163-165 | at most 5 entries in non-increasing count |
| AnalyticsPage.TopTypesMembers | admin-dashboard/src/pages/Analytics.tsx:151-161 | distinct type keys, each entry that type's group, with a count of at least 1 |
| AnalyticsPage.TopTypesRank | admin-dashboard/src/pages/Analytics.tsx:163-165 | every type left out is no more frequent than every type kept |
| AnalyticsPage.MissingTypeEntry | admin-dashboard/src/pages/Analytics.tsx:152-154 | requests without a type share the key "undefined"; unless some request's type is the string "undefined", that entry is named "Unknown" |
| TimeOffManagementPage.FilteredRequests | admin-dashboard/src/pages/admin/TimeOffManagement.tsx:101-103 | 'all' keeps the whole list; a status keeps exactly the requests with that status, each as many times as it occurs, in order |
| TimeOffManagementPage.FiltersPartition | admin-dashboard/src/pages/admin/TimeOffManagement.tsx:101-103 | the three status filters split the list: their sizes add up to its length |
| TimeOffManagementPage.StatusColour | admin-dashboard/src/pages/admin/TimeOffManagement.tsx:153-162 | success exactly for approved, error exactly for rejected, warning exactly for pending |
| TimeOffManagementPage.ActionsIffWarning | admin-dashboard/src/pages/admin/TimeOffManagement.tsx:153-186 | Approve and Reject are shown exactly on the rows whose chip is the warning colour |
| TimeOffManagementPage.SetStatus | admin-dashboard/src/pages/admin/TimeOffManagement.tsx:92-95 | the document with the id gets the new status and now as its update time; every other document is unchanged; an unknown id changes nothing |
| TimeOffManagementPage.SetStatusIdempotent | admin-dashboard/src/pages/admin/TimeOffManagement.tsx:92-95 | the same decision twice equals once |
| TimeOffManagementPage.DecidedLeavesPending | admin-dashboard/src/pages/admin/TimeOffManagement.tsx:92-95 | after a decision the pending filter holds exactly the other pending requests, in order |
| TimeOffManagementPage.HandleStatusChange | admin-dashboard/src/pages/admin/TimeOffManagement.tsx:90-99 | as written: updates 'timeOffRequests' and leaves the listed 'timeOff' collection as it was |
| TimeOffManagementPage.DecisionNotShown | admin-dashboard/src/pages/admin/TimeOffManagement.tsx:44 | as written, a pending request that is approved or rejected is still listed as pending, with its buttons |
| TimeOffManagementPage.DecideShown | admin-dashboard/src/pages/admin/TimeOffManagement.tsx:90-99 | corrected: the decision is written to the collection the page lists |
| TimeOffManagementPage.DecisionShown | admin-dashboard/src/pages/admin/TimeOffManagement.tsx:90-99 | corrected: the decided row shows the new status without buttons; no other row changes |
| TimeOffManagementPage.TimeOffManagement.constructor | admin-dashboard/src/pages/admin/TimeOffManagement.tsx:34-38 | empty list, loading, dialog closed, nothing selected, filter 'all' |
| TimeOffManagementPage.TimeOffManagement.OnSnapshot | admin-dashboard/src/pages/admin/TimeOffManagement.tsx:44-65 | the list becomes the 'timeOff' documents and loading ends |
| TimeOffManagementPage.TimeOffManagement.SetFilter | admin-dashboard/src/pages/admin/TimeOffManagement.tsx:38 | sets the filter only |
| TimeOffManagementPage.TimeOffManagement.HandleOpenDialog | admin-dashboard/src/pages/admin/TimeOffManagement.tsx:78-83 | opens the dialog; a given request becomes the selection, none keeps the previous selection |
| TimeOffManagementPage.TimeOffManagement.HandleCloseDialog | admin-dashboard/src/pages/admin/TimeOffManagement.tsx:85-88 | closes the dialog and clears the selection |
| MessagesPage.FilteredContacts | admin-dashboard/src/pages/Messages.tsx:138-140 | exactly the contacts whose lower-cased name contains the lower-cased query, each as many times as it occurs, in order; an empty query keeps all |
| MessagesPage.SearchIgnoresCase | admin-dashboard/src/pages/Messages.tsx:138-140 | a query and its lower-cased form select the same contacts |
| MessagesPage.PositionsAreUnique | admin-dashboard/src/pages/Messages.tsx:78-135 | in a thread whose ids are positions, no two messages share an id |
| MessagesPage.Messages.constructor | admin-dashboard/src/pages/Messages.tsx:35-135 | no contact, empty text and query, the seven seed messages with ids 1..7 at positions 1..7 |
| MessagesPage.Messages.SelectContact | admin-dashboard/src/pages/Messages.tsx:35 | selects the contact only |
| MessagesPage.Messages.SetMessageText | admin-dashboard/src/pages/Messages.tsx:36 | sets the text only |
| MessagesPage.Messages.SetSearchQuery | admin-dashboard/src/pages/Messages.tsx:37 | sets the query only |
| MessagesPage.Messages.HandleSendMessage | admin-dashboard/src/pages/Messages.tsx:142-156 | with non-blank text and a selected contact, one message is appended after the unchanged thread (id length + 1, sender 0, the contact as recipient, the untrimmed text, read) and the input clears; otherwise nothing changes; ids stay equal to positions |
| MessagesPage.Messages.HandleKeyPress | admin-dashboard/src/pages/Messages.tsx:158-163 | Enter without Shift sends as above; any other key or Shift+Enter changes nothing |
| SignupPage.ValidateUserForm | admin-dashboard/src/pages/Signup.tsx:113-127 | the required-fields error exactly when display name, email, password or department is empty (not the confirmation); otherwise the mismatch error exactly when the passwords differ; otherwise the length error exactly below 6 UTF-16 code units (JavaScript's `length`); no error exactly when all pass |
| SignupPage.PasswordBoundary | admin-dashboard/src/pages/Signup.tsx:124-127 | a matching password of six UTF-16 code units passes; five do not |
| SignupPage.ThreeEmojiPasswordPasses | admin-dashboard/src/pages/Signup.tsx:124-127 | a password of three characters above U+FFFF has length 6 in code units and passes |
| Text.Utf16Length | admin-dashboard/src/pages/Signup.tsx:124 | JavaScript's `length`: between one and two code units per character, one each for characters up to U+FFFF, two each above |
| SignupPage.FailureMessage | admin-dashboard/src/pages/Signup.tsx:171-175 | never empty: the "already registered" text for an address in use, else the error's message, or the fallback when it is empty |
| SignupPage.Signup.constructor | admin-dashboard/src/pages/Signup.tsx:76-89 | step 0, empty forms, no error or notice, not loading |
| SignupPage.Signup.SetOrganizationName | admin-dashboard/src/pages/Signup.tsx:77-79 | sets the organisation name only |
| SignupPage.Signup.SetUserForm | admin-dashboard/src/pages/Signup.tsx:80-86 | sets the account form only |
| SignupPage.Signup.HandleOrganizationSubmit | admin-dashboard/src/pages/Signup.tsx:93-106 | an empty name shows its error and stays on the step; otherwise the error clears and the wizard reaches step 1 with the notice cleared |
| SignupPage.Signup.HandleUserSubmit | admin-dashboard/src/pages/Signup.tsx:108-179 | creation starts exactly when `ValidateUserForm` finds nothing; otherwise its error is shown; a created account navigates to /dashboard; a failure shows `FailureMessage`; loading is cleared after an attempt |
| SignupPage.Signup.HandleBack | admin-dashboard/src/pages/Signup.tsx:181-185 | back to step 0 with no error and no notice |
| DashboardLayout.SelectedIsAncestor | admin-dashboard/src/components/layout/DashboardLayout.tsx:362-368 | an item is highlighted only on its own path, on a path continuing it after a '/', or (team item) on /employee/team |
| DashboardLayout.SiblingNotSelected | admin-dashboard/src/components/layout/DashboardLayout.tsx:367 | a path extending the item's path by any character other than '/' does not highlight it |
| DashboardLayout.DashboardOnNested | admin-dashboard/src/components/layout/DashboardLayout.tsx:271 | the Dashboard item is highlighted on every path below /dashboard/ |
| DashboardLayout.ShiftsSiblingExample | admin-dashboard/src/components/layout/DashboardLayout.tsx:367 | /dashboard/shiftsX does not highlight the Shifts item |
| DashboardLayout.VisibleMenu | admin-dashboard/src/components/layout/DashboardLayout.tsx:402-479 | the main items, followed by the two admin items for the 'admin' role only |
| DashboardLayout.AdminItemsOnlyForAdmin | admin-dashboard/src/components/layout/DashboardLayout.tsx:434-479 | an admin item is shown exactly when the role is 'admin' |
| DashboardLayout.Layout.constructor | admin-dashboard/src/components/layout/DashboardLayout.tsx:301-302 | drawer closed, no menu anchor |
| DashboardLayout.Layout.HandleDrawerToggle | admin-dashboard/src/components/layout/DashboardLayout.tsx:341-343 | flips the drawer only |
| DashboardLayout.Layout.HandleMenu | admin-dashboard/src/components/layout/DashboardLayout.tsx:345-347 | anchors the account menu to the clicked element only |
| DashboardLayout.Layout.HandleClose | admin-dashboard/src/components/layout/DashboardLayout.tsx:349-351 | clears the anchor only |
| DashboardLayout.Layout.SelectItem | admin-dashboard/src/components/layout/DashboardLayout.tsx:405-410 | navigates to the item, which is then highlighted; the drawer closes on a mobile screen and is untouched otherwise |
| ProtectedRoute.Decide | admin-dashboard/src/components/ProtectedRoute.tsx:11-44 | the spinner exactly while loading; the login redirect, carrying the location, exactly when loaded without a user; the unauthorized redirect exactly for a user whose role (missing read as '') is not in a non-empty list; the content exactly otherwise |
| ProtectedRoute.DefaultAdmitsAnyUser | admin-dashboard/src/components/ProtectedRoute.tsx:13-14 | with the default empty list every signed-in user gets the content |
| ProtectedRoute.MissingRoleIsEmpty | admin-dashboard/src/components/ProtectedRoute.tsx:39-41 | a missing role acts as the role '' and is turned away by a non-empty list that does not name '' |

## Left out

- Firestore, Firebase Auth, Storage and messaging calls. Only their local effects are modelled. Success or failure is a flag and a new document id is a parameter. The `where('startTime', '>=', …)` queries of pages/Analytics.tsx are not modelled: the aggregations take the fetched documents as given.
- Time zones and locale. Local time is UTC. `toLocaleDateString` day keys are calendar dates. `toLocaleTimeString`, `toLocaleString` and `Intl.RelativeTimeFormat` text are not modelled.
- Floating point. Hours are integer milliseconds. The rounding to one decimal (`Math.round(x * 10) / 10`) in both analytics pages and `formatDuration` are not modelled.
- `AdminAnalyticsPage.TotalStats`: the average is the floor of the millisecond mean, not the source's rounded hours.
- Date range limits. `TimeClip`, invalid dates (NaN) and the ±8.64e15 ms range are not modelled.
- Dates are not copied or mutated. The boundary helpers are functions of the input time value, which no call changes.
- `timestampToDate`, `formatTimestamp`, `dateToTimestamp`, `getHoursDifference` and `formatDuration`. These are format conversions and floating-point helpers outside the named core.
- `ScheduleCalendarPage.NewShift`: a form without a status gets 'pending'. The source casts the missing status through as `undefined`, which the `Shift` type cannot hold.
- `ScheduleCalendarPage.ScheduleCalendar.HandleDeleteShift`: the list-view delete button calls `setSelectedShift` and then `handleDeleteShift`, which still reads the old selection (ScheduleCalendar.tsx:277-280). React's batched state and stale closures are not modelled. The method deletes the current selection.
- The schedule calendar's employee fetch (ScheduleCalendar.tsx:72-84). It feeds only rendering.
- `AnalyticsPage.ProcessEmployeeHours` uses durations from the fetched start and end times. As written, line 132 calls `.toDate()` on values that lines 68-69 already converted to `Date`, which throws a TypeError whenever a shift lies in the window. The catch at line 89 swallows it, so `setEmployeeHours` (line 78) and the whole time-off fetch and statistics (lines 81-88) never run in that case; only the per-day chart (`setShiftData`, line 75) is set. The model gives the intended aggregation.
- `AnalyticsPage.ProcessTimeOffStats`: JavaScript lists integer-like object keys (such as "12") before the others. The model keeps first-seen order for every key. An empty-string type is stored under its own key and also named "Unknown", so it can appear as a second "Unknown" entry.
- The `sort` comparators of the analytics pages are modelled as a stable insertion sort on the negated value. This matches `Array.prototype.sort`'s required stability.
- Documents missing `employeeId` or `status` in the admin analytics page (the source casts them unchecked). The model's records always carry both.
- `ScheduleCalendarPage.SortByStart` sorts a sequence rather than an array in place.
- `TimeOffManagementPage.TimeOffManagement.OnSnapshot`: the employee-name join against the 'users' collection (`displayName || 'Unknown'`, TimeOffManagement.tsx:49-56) and the date conversions are not modelled. The list holds the documents as delivered.
- `SignupPage.Signup.HandleOrganizationSubmit`: the 1.5-second `setTimeout` is modelled as immediate, so the saved notice is set and cleared in the same step.
- `SignupPage.Signup.HandleUserSubmit`: the Auth sign-up, the two `setDoc` writes, the login and their failure points are one outcome parameter. The documents written (role 'admin', organisation owned by the new user) are not modelled.
- The layout's random status message (`Math.random` with an eight-second `setInterval`), push-notification setup, the dark-mode switch and logout are not modelled.
- `MessagesPage.FilteredContacts` lower-cases ASCII letters only. JavaScript's `toLowerCase` also folds other scripts.
- `AdminAnalyticsPage.EmployeeLabel`: takes the first five characters, while `substring(0, 5)` takes five UTF-16 code units. The two differ only for ids holding characters above U+FFFF, which generated Firestore ids do not contain.
- Rendering, styling and the static pages are not modelled.

## Findings

| source | as written | input that shows it | evidently intended | confidence | as-written member | corrected member |
|---|---|---|---|---|---|---|
| admin-dashboard/src/utils/timeHelpers.ts:203-208 | `setMonth(getMonth() + 1)` before `setDate(0)` overflows when the input's day does not exist in the next month | 31 January 2023 gives 28 February 2023 23:59:59.999 | the last day of the input's own month (31 January 2023) | high, not executed | TimeHelpers.GetEndOfMonthJanuary31 | TimeHelpers.EndOfMonth |
| admin-dashboard/src/utils/timeHelpers.ts:239-240 | `new Date(getFullYear(), 0, 1)` reads a year 0..99 as 1900 + year | any date in year 50 gives a 'year' range in 1950, after the input | 1 January to 31 December of the input's own year | medium, not executed | TimeHelpers.YearRangeTwoDigitYear | TimeHelpers.YearRangeOf |
| admin-dashboard/src/pages/admin/TimeOffManagement.tsx:90-99 | the decision is written to 'timeOffRequests' while the table lists 'timeOff' (line 44) | approving a pending request in 'timeOff': the row stays pending with its buttons | the decision shows in the listed collection | medium, not executed | TimeOffManagementPage.DecisionNotShown | TimeOffManagementPage.DecisionShown |
| admin-dashboard/src/pages/Calendar.tsx:97-103 | `new Date(prev.getFullYear(), prev.getMonth() ± 1, 1)` reads a year 0..99 as 1900 + year | the previous month from January of year 50 shows 1 December 1949 | day 1 of the neighbouring month of the same year | medium, not executed | CalendarPage.NavigationTwoDigitYear | CalendarPage.IntendedNavigationLands |
