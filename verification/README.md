# HourMap time tracking — a Dafny model

HourMap is a time-tracking service. Employees clock in and out of shifts. Managers edit and
delete those shifts, run payroll and project reports, invite people into their organisation,
manage roles and sign-in, and assign users to projects. The backend comes in two variants of
the same ASP.NET controllers: the `HourMap/` one and the older root `Controllers/` one. An
Angular frontend shows each user's shifts on the timeclock page and a manager's per-user report
on the user-time page.

This project models the core of that system as pure Dafny functions over immutable tables. It
proves what the controllers and pages promise about them.

Data and modules:

- Every table (time entries, users, invitations, projects, user–project assignments) is a `seq`
  in storage order, so `FirstOrDefault` is "the first matching index".
- Every action returns a `Response` (`Ok` or one of `NotFound`, `BadRequest`, `Unauthorized`,
  `ServerError`). `ServerError` is the 500 an action answers when it throws: `int.Parse` of a
  malformed claim, or `Forbid(message)`, which takes its message for the name of an
  authentication scheme that is not registered. No action therefore ever answers 403. An action that saves returns a `Step` carrying the table it leaves behind.
- Instants are whole seconds, or milliseconds on the frontend.
- `Common` holds sequences and responses, `Entities` the records and the identity lookup
  normaliser, and `Text` digits, numerals, trimming, case folding and substring search.
- `TimeEntries` and `TimeEntryLaws` cover the shift lifecycle in both backend variants.
  `EntryQueries` covers the read-only entry queries.
- `Reports` and `ReportLaws` cover the payroll and project reports.
- `Duration` covers the elapsed-time text (the `XmlConvert` lexical form of a `TimeSpan`) and
  the three regular-expression parsers that read it back. `DurationLaws` holds their round trips
  and disagreements.
- `Timeclock` and `UserTime` cover the two frontend pages.
- `Invitations`, `Accounts`, `UserAdmin` and `Projects` cover the remaining controllers.

## Model

| member | source | states |
|---|---|---|
| TimeEntries.Differs | HourMap/Controllers/TimeEntryController.cs:118-145 | the `HourMap/` edit flags a time change when the clock-in differs, or a supplied clock-out, project or location differs |
| TimeEntries.Merge | HourMap/Controllers/TimeEntryController.cs:125-144 | the `HourMap/` edit takes the request's clock-in and every supplied optional field, keeping the stored value otherwise |
| TimeEntries.LegacyMerge | Controllers/TimeEntryController.cs:105-123 | the root edit overwrites exactly the supplied fields |
| TimeEntries.IndexOf | HourMap/Controllers/TimeEntryController.cs:80-85 | the index found holds the id and is the first such row; no index means no row has the id |
| TimeEntries.IndexOfUnique | HourMap/Controllers/TimeEntryController.cs:80-85 | when ids are unique, the row looked up by id is the only row carrying it |
| TimeEntries.NextId | Entities/TimeEntry.cs:5 | the identity value given to a new entry is positive and larger than every id in the table, so it collides with none |
| TimeEntries.ClockIn | HourMap/Controllers/TimeEntryController.cs:34-68 | a missing user or organisation claim is Unauthorized, and an organisation claim that `int.Parse` rejects is a ServerError; neither saves anything. Clock-in succeeds exactly when both claims are present and the organisation parses, and then appends exactly one open entry: the caller's, in the parsed organisation, clocked in now, with no duration and a fresh id |
| TimeEntries.ClockOut | HourMap/Controllers/TimeEntryController.cs:78-103 | an unknown id is NotFound and a closed entry BadRequest, and neither changes the table. Otherwise only that row changes: it closes at `now` and stores the encoded elapsed time, agreeing with its clock times |
| TimeEntries.Recompute | HourMap/Controllers/TimeEntryController.cs:147-160 | re-deriving the duration succeeds exactly for a closed entry whose clock-out is not before its clock-in, and then yields a consistent entry differing only in its duration |
| TimeEntries.UpdateEntry | HourMap/Controllers/TimeEntryController.cs:114-180 | an unknown id is NotFound. An edit that changes no field returns the stored entry untouched. Any change (project or location included) succeeds exactly when the merged entry is closed and not negative; only that row changes, carrying the requested clock-in, every supplied optional field, the stored value of every field not supplied, and a recomputed duration |
| TimeEntries.LegacyUpdateEntry | Controllers/TimeEntryController.cs:96-158 | in the root controller, supplied fields overwrite stored ones. Only a supplied clock time triggers the closed/non-negative check and re-encoding; other edits always succeed and keep the stored duration; only that row changes, and every field the request does not supply keeps its stored value |
| TimeEntries.DeleteEntry | HourMap/Controllers/TimeEntryController.cs:191-204 | delete fails with NotFound, changing nothing, exactly when no row has the id; otherwise one row goes |
| TimeEntries.GetEntry | HourMap/Controllers/TimeEntryController.cs:216-224 | NotFound exactly when no row has the id; otherwise a stored entry with that id |
| TimeEntryLaws.ReplaceKeepsValid | Entities/TimeEntry.cs:3-17 | replacing a row by a consistent row with the same id keeps ids unique and every row's duration consistent with its clock times |
| TimeEntryLaws.ClockInKeepsValid | HourMap/Controllers/TimeEntryController.cs:41-55 | clocking in preserves the table invariant (unique ids, durations present exactly for closed entries and equal to their encoded span) |
| TimeEntryLaws.ClockOutKeepsValid | HourMap/Controllers/TimeEntryController.cs:87-102 | clocking out preserves the table invariant |
| TimeEntryLaws.ClockOutOnce | HourMap/Controllers/TimeEntryController.cs:87-90 | a shift closes only once: clocking the same entry out again, at any later time, is BadRequest and leaves the table as it is |
| TimeEntryLaws.ClockInThenOut | HourMap/Controllers/TimeEntryController.cs:34-103 | with a numeric organisation claim, clocking out the id clock-in returned succeeds and closes that same entry, with its clock-in, the clock-out time and the encoding of the span between them |
| TimeEntryLaws.ClockOutStoresHours | HourMap/Controllers/TimeEntryController.cs:92-95 | for a forward shift, the stored duration text reads back in the day-aware parser as exactly the shift's length in hours |
| TimeEntryLaws.ClockOutTimeclockHours | hourmap-frontend/src/app/components/timeclock/timeclock.component.ts:233-247 | the timeclock page reads the stored duration as the shift's length in hours, unless the shift is a positive whole number of days |
| TimeEntryLaws.ClosedEntryHours | HourMap/Controllers/TimeEntryController.cs:149-159 | any closed, consistent, forward entry has a duration whose text reads back as its length in hours |
| TimeEntryLaws.ClosedEntryTimeclockHours | hourmap-frontend/src/app/components/timeclock/timeclock.component.ts:233-247 | the same through the timeclock parser, for entries that are not a positive whole number of days |
| TimeEntryLaws.HoursReadsEncoding | HourMap/Controllers/TimeEntryController.cs:94 | any text produced by the encoder for n seconds reads back as n/3600 hours |
| TimeEntryLaws.TimeclockReadsEncoding | hourmap-frontend/src/app/components/timeclock/timeclock.component.ts:233-247 | the same for the timeclock parser when n is zero or not a multiple of a day |
| TimeEntryLaws.UpdateKeepsValid | HourMap/Controllers/TimeEntryController.cs:114-180 | the `HourMap/` edit preserves the table invariant |
| TimeEntryLaws.LegacyUpdateKeepsValid | Controllers/TimeEntryController.cs:96-158 | the root edit preserves the table invariant, since an edit without clock times leaves the clock-out and duration as stored |
| TimeEntryLaws.ProjectEditOfOpenEntryDiverges | HourMap/Controllers/TimeEntryController.cs:136-153 | moving an open entry to another project is refused by the `HourMap/` controller but saved by the root one, which keeps the entry open |
| TimeEntryLaws.ResubmittedClockInDiverges | Controllers/TimeEntryController.cs:106-131 | re-sending an open entry's unchanged clock-in is a no-op success in the `HourMap/` controller and BadRequest in the root one |
| TimeEntryLaws.NegativeEditRefused | HourMap/Controllers/TimeEntryController.cs:154-157 | an edit that puts clock-out before clock-in is refused by both controllers |
| TimeEntryLaws.DeleteRemovesExactly | HourMap/Controllers/TimeEntryController.cs:193-202 | under the table invariant, delete leaves exactly the entries with other ids and keeps the invariant |
| TimeEntryLaws.RemoveAtMembers | HourMap/Controllers/TimeEntryController.cs:200-202 | removing one row of a table with unique ids leaves exactly the rows with a different id |
| TimeEntryLaws.RemoveAtKeepsValid | HourMap/Controllers/TimeEntryController.cs:200-202 | removing any row keeps the table invariant |
| TimeEntryLaws.ReplaceKeepsSpans | HourMap/Controllers/TimeEntryController.cs:92-97 | replacing a row by one that ends no earlier than it starts keeps every span non-negative and every open shift started by now |
| TimeEntryLaws.ClockInKeepsSpans | HourMap/Controllers/TimeEntryController.cs:41-55 | clocking in keeps every span non-negative, and the new open shift has started by any later time |
| TimeEntryLaws.ClockOutKeepsSpans | HourMap/Controllers/TimeEntryController.cs:87-102 | when every open shift started by now, clocking out at now stores a non-negative span |
| TimeEntryLaws.UpdateKeepsSpans | HourMap/Controllers/TimeEntryController.cs:114-180 | the edit of the `HourMap/` controller keeps every span non-negative |
| TimeEntryLaws.LegacyUpdateKeepsSpans | Controllers/TimeEntryController.cs:96-158 | the edit of the root controller keeps every span non-negative, also when it edits an open entry without clock times |
| TimeEntryLaws.DeleteKeepsSpans | HourMap/Controllers/TimeEntryController.cs:191-204 | deleting keeps every span non-negative |
| EntryQueries.InWindow | HourMap/Controllers/TimeEntryController.cs:252-255 | an entry lies in the window when its clock-in is no earlier than a given start and no later than a given end |
| EntryQueries.IsLatest | HourMap/Controllers/TimeEntryController.cs:289-291 | the entry at that index is the user's and no entry of the user clocks in later |
| EntryQueries.EntriesOf | HourMap/Controllers/TimeEntryController.cs:250-257 | an entry is listed exactly when it is in the table, belongs to the user and clocks in within the optional inclusive window; the list is empty exactly when no such entry exists |
| EntryQueries.EntriesByUserAndDate | HourMap/Controllers/TimeEntryController.cs:236-274 | a non-manager asking for someone else's entries hits `Forbid(message)`, which throws: ServerError, exactly in that case. An empty result is NotFound, exactly when no entry of the target user lies in the window. A success lists exactly those entries |
| EntryQueries.UserEntriesByDates | HourMap/Controllers/TimeEntryController.cs:317-343 | a missing claim is Unauthorized. NotFound exactly when the caller has no entry clocking in within [start, end]; otherwise exactly those entries |
| EntryQueries.EntriesByUserIdAndDates | HourMap/Controllers/TimeEntryController.cs:400-429 | Unauthorized exactly when the user is unknown or has no organisation. Otherwise exactly the user's entries in that organisation clocking in from start on that are open or end by end |
| EntryQueries.RecentEntry | HourMap/Controllers/TimeEntryController.cs:283-306 | Unauthorized exactly when the claim is missing, NotFound exactly when the caller has no entry, and otherwise a success: an entry of the caller such that none of the caller's entries clocks in later. Which of several entries sharing that clock-in is returned is left open, as in the SQL query |
| Reports.PayrollSelects | HourMap/Controllers/TimeEntryController.cs:371-374 | the payroll query's filter: the organisation, a clock-in from the start, and a clock-out present and no later than the end |
| Reports.ProjectSelects | HourMap/Controllers/TimeEntryController.cs:450-453 | the project query's filter: the project and organisation, a clock-in from the start, and a clock-out present and no later than the end |
| Reports.Keys | HourMap/Controllers/TimeEntryController.cs:378-382 | the group keys are distinct and are exactly the users with a selected entry |
| Reports.RowFor | HourMap/Controllers/TimeEntryController.cs:380-386 | a group's row names its user and carries that user's total hours, the account's e-mail or "Unknown", and its pay rate or 0 |
| Reports.EntryHours | HourMap/Controllers/TimeEntryController.cs:384 | an entry's hours: 0 for an open entry, otherwise the seconds from clock-in to clock-out over 3600, non-negative for a forward entry |
| Reports.UserHours | HourMap/Controllers/TimeEntryController.cs:384 | one group's `Sum` of entry hours, non-negative when every entry ends after it starts |
| Reports.NamesAccount | HourMap/Controllers/TimeEntryController.cs:383-385 | a row shows the e-mail (or "Unknown") and pay rate (or 0) of an account with its user id; the "no such account" branch cannot arise, because the required foreign key of HourMap/Data/ApplicationDbContext.cs:74-78 gives every entry a user |
| Reports.RowsFor | HourMap/Controllers/TimeEntryController.cs:378-386 | one row per key, in key order, each that key's row |
| Reports.Rows | HourMap/Controllers/TimeEntryController.cs:378-386 | the rows have distinct users, exactly one per user with a selected entry, each carrying the sum of that user's hours and that user's e-mail (or "Unknown") and pay rate (or 0) |
| Reports.PayrollReport | HourMap/Controllers/TimeEntryController.cs:355-388 | an inverted window is BadRequest. A missing, unknown or organisation-less caller is Unauthorized. Otherwise the rows group exactly the closed entries of the caller's organisation inside the window, each row showing its user's e-mail (or "Unknown") and pay rate (or 0) |
| Reports.ProjectReport | HourMap/Controllers/TimeEntryController.cs:441-476 | a missing or empty organisation claim is Unauthorized, and one `int.Parse` rejects is a ServerError. NotFound exactly when no closed entry of the project and the parsed organisation lies in the window; otherwise non-empty rows grouping exactly those entries, each showing its user's e-mail (or "Unknown") and pay rate (or 0) |
| ReportLaws.RowsTotalIsSumOver | HourMap/Controllers/TimeEntryController.cs:378-386 | the rows' totals add up to the per-user sums over the keys |
| ReportLaws.UserHoursAbsent | HourMap/Controllers/TimeEntryController.cs:384 | a user without entries has zero hours |
| ReportLaws.SumOverStep | HourMap/Controllers/TimeEntryController.cs:378-384 | a new entry adds its hours to the per-key sums once when its user is a key and not at all otherwise |
| ReportLaws.KeysConserveHours | HourMap/Controllers/TimeEntryController.cs:378-384 | grouping by user neither loses nor double-counts hours: the groups' sums equal the total of all entries |
| ReportLaws.RowsConserveHours | HourMap/Controllers/TimeEntryController.cs:378-386 | the rows of any report add up to the hours of the entries it selected |
| ReportLaws.PayrollReportRows | HourMap/Controllers/TimeEntryController.cs:355-388 | a payroll report selects no open entry and none from another organisation, has one row per user with a selected entry, and its rows add up to the selected hours |
| ReportLaws.RowShowsAccount | HourMap/Controllers/TimeEntryController.cs:383-385 | with unique user ids, a row for an account shows exactly that account's e-mail (or "Unknown") and pay rate (or 0) |
| ReportLaws.PayrollShowsPayRate | HourMap/Controllers/TimeEntryController.cs:371-386 | every user with a selected entry has a payroll row showing that user's e-mail (or "Unknown") and pay rate (or 0) |
| ReportLaws.SelectedUser | HourMap/Controllers/TimeEntryController.cs:371-376 | a user appears among the filtered entries exactly when one of their entries passes the filter |
| ReportLaws.ProjectReportRows | HourMap/Controllers/TimeEntryController.cs:441-476 | a project report for a numeric claim selects only closed entries of that project, has one row per user, and its rows add up to the selected hours |
| ReportLaws.TotalHoursNonNegative | HourMap/Controllers/TimeEntryController.cs:384 | entries that each end no earlier than they start have non-negative total hours |
| ReportLaws.SelectedHoursNonNegative | HourMap/Controllers/TimeEntryController.cs:371-386 | any selection from a table whose spans are non-negative, as the lifecycle keeps them, totals non-negative hours |
| Text.NatToStringValue | hourmap-frontend/src/app/components/timeclock/timeclock.component.ts:240-243 | parsing a printed natural number back gives the number |
| Text.ParseInt32 | HourMap/Controllers/UserController.cs:96 | a parsed claim lies in the 32-bit range and ends in a digit, and every digit string within range parses to its value |
| Text.ParseInt32RoundTrip | HourMap/Controllers/UserController.cs:96 | every 32-bit integer, printed, parses back to itself |
| Text.DigitRunDigits | hourmap-frontend/src/app/components/timeclock/timeclock.component.ts:234 | a greedy `\d+` run consists of digits and stops at a non-digit or the end |
| Text.DigitRunExact | hourmap-frontend/src/app/components/timeclock/timeclock.component.ts:234 | a run of k digits followed by a non-digit or the end is exactly the greedy run |
| Text.NumeralRun | hourmap-frontend/src/app/components/timeclock/timeclock.component.ts:234 | a printed numeral followed by a unit letter is read whole by the greedy run |
| Text.ToLower | hourmap-frontend/src/app/components/reports/user-time/user-time.component.ts:94 | lower-casing keeps the length and folds every letter A-Z, position by position |
| Text.Trim | hourmap-frontend/src/app/components/reports/user-time/user-time.component.ts:94 | the trimmed text is a slice of the input with only JavaScript white space around it (the Unicode space separators and line terminators included), and starts and ends with a non-space |
| Text.TrimEmptyIffBlank | hourmap-frontend/src/app/components/reports/user-time/user-time.component.ts:94-95 | a text trims to nothing exactly when it is all white space |
| Text.TrimKeeps | hourmap-frontend/src/app/components/reports/user-time/user-time.component.ts:94 | a text without white space at either end trims to itself |
| Text.ToLowerKeeps | hourmap-frontend/src/app/components/reports/user-time/user-time.component.ts:94 | a text without capitals is its own lower case |
| Text.Includes | hourmap-frontend/src/app/components/reports/user-time/user-time.component.ts:101-102 | `includes` holds exactly when the needle occurs at some position |
| Duration.EncodeSpan | HourMap/Controllers/TimeEntryController.cs:93-94 | the text `XmlConvert` writes for a non-negative span starts with `P`; `DurationLaws` reads each of its fields back |
| Duration.Encode | HourMap/Controllers/TimeEntryController.cs:93-94 | a negative span is written as its magnitude's text behind a minus sign, a non-negative one as the span's own text |
| Duration.TimeclockHours | hourmap-frontend/src/app/components/timeclock/timeclock.component.ts:233-253 | the timeclock page's decimal hours: the hours, minutes and seconds its pattern finds, or zero when the pattern fails, so never negative; `DurationLaws` states when it reads the encoder back |
| Duration.UserTimeHours | hourmap-frontend/src/app/components/reports/user-time/user-time.component.ts:116-133 | the user-time page's decimal hours, from a pattern without a day field, never negative; `DurationLaws` states what it reads |
| Duration.Hours | hourmap-frontend/src/app/components/timeclock/timeclock.component.ts:233-253 | the timeclock reading with the time part optional, the corrected parser, never negative, that reads every encoded span back (`DurationLaws.HoursRoundTrip`) |
| Duration.Group | hourmap-frontend/src/app/components/timeclock/timeclock.component.ts:234 | an optional `(\d+)U` group that matches consumes at least one character within the text |
| Duration.SecondsGroup | hourmap-frontend/src/app/components/timeclock/timeclock.component.ts:234 | the optional seconds group, when it matches, reads a non-negative value |
| Duration.MatchAt | hourmap-frontend/src/app/components/timeclock/timeclock.component.ts:234 | one attempt of a pattern at one position: a match starts with `P`; the two mandatory-`T` patterns need a `T` after it, the user-time one at once and with no day count; the `T`-optional pattern matches at every `P` |
| Duration.DecimalHours | hourmap-frontend/src/app/components/timeclock/timeclock.component.ts:242-247 | the captured days, hours, minutes and seconds as hours: 3600 times the result is the captured span in seconds |
| Duration.HoursBy | hourmap-frontend/src/app/components/timeclock/timeclock.component.ts:233-247 | every parser yields non-negative hours, and 0 when nothing matches |
| Duration.Attempts | hourmap-frontend/src/app/components/timeclock/timeclock.component.ts:235 | the match is attempted at every position of the text |
| Duration.FirstSome | hourmap-frontend/src/app/components/timeclock/timeclock.component.ts:235 | the result is the first successful attempt, and none exactly when every attempt fails |
| Duration.Leftmost | hourmap-frontend/src/app/components/timeclock/timeclock.component.ts:235 | `match` without the global flag: the captures of the leftmost position where the pattern matches, none exactly when it matches at no position |
| Duration.GroupReadsField | HourMap/Controllers/TimeEntryController.cs:94 | a written `nU` field is read back by its group as n |
| Duration.SecondsGroupReadsField | HourMap/Controllers/TimeEntryController.cs:94 | a written `nS` field is read back by the seconds group as n |
| Duration.TimeGroupsReadClock | hourmap-frontend/src/app/components/timeclock/timeclock.component.ts:234-243 | the hour, minute and second groups read back exactly the fields the encoder writes after `T` |
| Duration.TimeGroupsReadZero | hourmap-frontend/src/app/components/timeclock/timeclock.component.ts:234-243 | the zero span's `T0S` reads as zero |
| DurationLaws.SpanCapturesHours | hourmap-frontend/src/app/components/timeclock/timeclock.component.ts:245 | the fields the encoder writes for n seconds combine to n/3600 decimal hours |
| DurationLaws.EncodingDayPart | hourmap-frontend/src/app/components/timeclock/timeclock.component.ts:234 | the optional day group reads the encoding's day count, or nothing below one day |
| DurationLaws.EncodingTimePart | hourmap-frontend/src/app/components/timeclock/timeclock.component.ts:234 | when an encoding has a `T` part, the time groups after it read the span's fields |
| DurationLaws.DayTimeMatchesEncoding | hourmap-frontend/src/app/components/timeclock/timeclock.component.ts:234-235 | both day-aware patterns match an encoding with a `T` part at its start and capture its fields |
| DurationLaws.LeftmostAtStart | hourmap-frontend/src/app/components/timeclock/timeclock.component.ts:235 | a pattern that matches at index 0 yields that match |
| DurationLaws.TimeclockRoundTrip | hourmap-frontend/src/app/components/timeclock/timeclock.component.ts:233-247 | the timeclock parser reads the encoding of n seconds as n/3600 hours when n is zero or not a whole number of days |
| DurationLaws.NoLaterP | HourMap/Controllers/TimeEntryController.cs:94 | an encoding contains `P` only as its first character |
| DurationLaws.NoMatchAnywhere | hourmap-frontend/src/app/components/timeclock/timeclock.component.ts:237-240 | a pattern that can start only at index 0 and fails there matches nowhere, and the parser yields 0 |
| DurationLaws.WholeDaysReadAsZero | hourmap-frontend/src/app/components/timeclock/timeclock.component.ts:233-247 | a span of a positive whole number of days (at least 24 hours) reads as 0 on the timeclock page |
| DurationLaws.DayOptionalMatchesEncoding | hourmap-frontend/src/app/components/timeclock/timeclock.component.ts:234 | the day-aware pattern with an optional `T` part matches every encoding at its start |
| DurationLaws.HoursRoundTrip | hourmap-frontend/src/app/components/timeclock/timeclock.component.ts:233-247 | the corrected parser reads the encoding of every n >= 0 seconds as n/3600 hours |
| DurationLaws.UserTimeRoundTrip | hourmap-frontend/src/app/components/reports/user-time/user-time.component.ts:116-133 | below one day the user-time parser reads the encoding as n/3600 hours, agreeing with the timeclock parser |
| DurationLaws.UserTimeDropsDays | hourmap-frontend/src/app/components/reports/user-time/user-time.component.ts:116-133 | from one day on, the user-time parser finds no `PT` in the encoding and reads 0 |
| DurationLaws.ParsersDiverge | hourmap-frontend/src/app/components/reports/user-time/user-time.component.ts:117-123 | for a span of a day or more that is not whole days, the timeclock page shows the true hours and the user-time page 0 |
| DurationLaws.UserTimeMatchesIffPT | hourmap-frontend/src/app/components/reports/user-time/user-time.component.ts:117-123 | the user-time pattern matches exactly when the text contains `PT`; otherwise the page shows 0 |
| DurationLaws.TimeclockFallbacks | hourmap-frontend/src/app/components/timeclock/timeclock.component.ts:194 | one whole day encodes as `P1D`, and both `P1D` and the page's fallback `'0'` read as 0 hours |
| DurationLaws.EightAndAHalfHours | HourMap/Controllers/TimeEntryController.cs:92-95 | a 09:00 to 17:30 shift is stored as `PT8H30M` and read as 8.5 hours |
| DurationLaws.TimeGroupsReadZeroFields | hourmap-frontend/src/app/components/timeclock/timeclock.component.ts:266 | `0H0M0S` reads as zero in every field |
| DurationLaws.PTStartsTimeGroups | hourmap-frontend/src/app/components/reports/user-time/user-time.component.ts:117 | at a `PT` both the timeclock and the user-time pattern go straight to the time groups |
| DurationLaws.ZeroSpanReadsZero | hourmap-frontend/src/app/components/timeclock/timeclock.component.ts:266 | the fallback `PT0H0M0S` reads as 0 in both parsers |
| Timeclock.Clock | hourmap-frontend/src/app/components/timeclock/timeclock.component.ts:176-179 | the hour, minute and second counts of the span between two millisecond instants, with JavaScript's floor and remainder; `ClockSplitsSeconds` states how they recompose the seconds |
| Timeclock.DurationText | hourmap-frontend/src/app/components/timeclock/timeclock.component.ts:172-181 | the text `${h}h ${m}m ${s}s` of the three counts `Clock` computes; `Timeclock.ClockSplitsSeconds` states what the numerals mean for a forward span |
| Timeclock.IsSameDay | hourmap-frontend/src/app/components/timeclock/timeclock.component.ts:271-276 | two dates fall on the same calendar day exactly when year, month and day agree |
| Timeclock.JsRem | hourmap-frontend/src/app/components/timeclock/timeclock.component.ts:178-179 | JavaScript's remainder agrees with the mathematical one for a non-negative dividend and always lies strictly between -b and b |
| Timeclock.ClockSplitsSeconds | hourmap-frontend/src/app/components/timeclock/timeclock.component.ts:172-181 | for a forward span the counts are the elapsed whole seconds split into hours, minutes below 60 and seconds below 60, printed as plain numerals |
| Timeclock.SecondsSplit | hourmap-frontend/src/app/components/timeclock/timeclock.component.ts:177-179 | hours, minutes and seconds recombine to the elapsed seconds |
| Timeclock.BackwardSpanCounts | hourmap-frontend/src/app/components/timeclock/timeclock.component.ts:176-181 | a span one second backwards prints as -1h -1m -1s, and the counts no longer recombine to the span |
| Timeclock.DaysInMonth | hourmap-frontend/src/app/components/timeclock/timeclock.component.ts:211 | every month has 28 to 31 days |
| Timeclock.FirstOfNextMonth | hourmap-frontend/src/app/components/timeclock/timeclock.component.ts:211 | month 12 carries into January of the next year; the result is a valid first of the month |
| Timeclock.DayBefore | hourmap-frontend/src/app/components/timeclock/timeclock.component.ts:211 | day 0 of a month is a valid date |
| Timeclock.DayZeroIsMonthEnd | hourmap-frontend/src/app/components/timeclock/timeclock.component.ts:211 | day 0 of the next month is the last day of this month |
| Timeclock.PayPeriod | hourmap-frontend/src/app/components/timeclock/timeclock.component.ts:204-218 | the pay period is the 1st to the 15th up to the 15th, else the 16th to the month's last day, from midnight to 23:59:59.999 |
| Timeclock.PayPeriodContainsToday | hourmap-frontend/src/app/components/timeclock/timeclock.component.ts:204-218 | every moment of today lies inside the pay period computed today |
| Timeclock.PayPeriodsCoverMonth | hourmap-frontend/src/app/components/timeclock/timeclock.component.ts:204-218 | the two halves cover every day of the month, and every day of a half yields the same period |
| Timeclock.DurationOrZero | hourmap-frontend/src/app/components/timeclock/timeclock.component.ts:266 | a present, non-empty duration is used as it is |
| Timeclock.SumHoursAppend | hourmap-frontend/src/app/components/timeclock/timeclock.component.ts:265-268 | the hours of two lists of entries add up |
| Timeclock.TotalDuration | hourmap-frontend/src/app/components/timeclock/timeclock.component.ts:265-268 | the left fold equals the independent recursive sum of the entries' hours |
| Timeclock.UpdateDisplayedEntries | hourmap-frontend/src/app/components/timeclock/timeclock.component.ts:255-268 | 'today' keeps exactly the entries clocked in today, 'payPeriod' keeps all, anything else keeps the previous list; the total is the sum over the result |
| Timeclock.MissingDurationCountsZero | hourmap-frontend/src/app/components/timeclock/timeclock.component.ts:266 | an entry with no or an empty duration adds nothing to the total |
| UserTime.SearchTerm | hourmap-frontend/src/app/components/reports/user-time/user-time.component.ts:94 | the term has no upper-case ASCII letter and neither starts nor ends with white space |
| UserTime.NameMatches | hourmap-frontend/src/app/components/reports/user-time/user-time.component.ts:101-102 | a member matches when the lower-cased first or last name contains the term |
| UserTime.FilterUsers | hourmap-frontend/src/app/components/reports/user-time/user-time.component.ts:93-105 | a blank term clears the suggestions and the search flag. Otherwise the suggestions are exactly the members whose lower-cased first or last name contains the term. Nothing else on the page changes |
| UserTime.BlankSearchClears | hourmap-frontend/src/app/components/reports/user-time/user-time.component.ts:94-98 | typing only white space never starts a search |
| UserTime.LowerKeepsSpace | hourmap-frontend/src/app/components/reports/user-time/user-time.component.ts:94 | lower-casing white space leaves white space |
| UserTime.SearchFindsMember | hourmap-frontend/src/app/components/reports/user-time/user-time.component.ts:100-102 | searching for a member's lower-case first name finds that member |
| UserTime.SelectUser | hourmap-frontend/src/app/components/reports/user-time/user-time.component.ts:107-114 | choosing a member records its id, shows "first last", closes the suggestions and keeps the dates |
| UserTime.FetchRequest | hourmap-frontend/src/app/components/reports/user-time/user-time.component.ts:71-74 | no request is sent exactly when the user, the start date or the end date is missing; otherwise the request names all three |
| UserTime.SelectThenFetch | hourmap-frontend/src/app/components/reports/user-time/user-time.component.ts:71-114 | after choosing a user and both dates, the page requests that user's entries for those dates |
| UserTime.ShownHours | hourmap-frontend/src/app/components/reports/user-time/user-time.component.ts:80 | the hours shown per entry are non-negative, and 0 for a missing duration |
| Invitations.Live | HourMap/Controllers/InvitationController.cs:92 | an invitation counts while its expiry lies strictly ahead |
| Invitations.OutsideOwnOrganization | HourMap/Controllers/InvitationController.cs:79 | the organisation guard fires for a manager who is not an admin and belongs to another organisation |
| Invitations.EmailTaken | HourMap/Controllers/InvitationController.cs:86 | an address is taken when its normalised form is some account's stored e-mail key |
| Invitations.EmailShared | HourMap/Controllers/InvitationController.cs:86 | two accounts store the address's normalised form as their e-mail key, so the single-result e-mail lookup throws |
| Invitations.Pending | HourMap/Controllers/InvitationController.cs:92 | a live invitation for exactly that address and organisation exists |
| Invitations.Caller | HourMap/Controllers/InvitationController.cs:29-39 | Unauthorized exactly when the claim is missing or names no user; otherwise that user |
| Invitations.GetInvitations | HourMap/Controllers/InvitationController.cs:27-57 | the caller checks aside, exactly the invitations of the caller's organisation that have not yet expired |
| Invitations.InviteUser | HourMap/Controllers/InvitationController.cs:61-135 | a manager inviting into another organisation hits the throwing `Forbid(message)`: ServerError. So does an address whose normalised form is the stored e-mail key of two accounts, where `FindByEmailAsync` throws. An address whose normalised form is one account's stored e-mail key, or that has a live invitation to the organisation, is BadRequest. Otherwise exactly one invitation is appended, with a fresh id, the token, and an expiry seven days ahead. A refusal saves nothing |
| Invitations.FindInvitation | HourMap/Controllers/InvitationController.cs:158-162 | the index found holds the id; none means no invitation has it |
| Invitations.CancelInvitation | HourMap/Controllers/InvitationController.cs:140-173 | an unknown id is NotFound, and a manager of another organisation hits the throwing `Forbid(message)`, a ServerError; neither saves anything. Otherwise that invitation is removed |
| Invitations.InviteKeepsKeys | HourMap/Controllers/InvitationController.cs:98-107 | inviting keeps invitation ids unique, and tokens unique when the new token is fresh |
| Invitations.InvitationListedUntilExpiry | HourMap/Controllers/InvitationController.cs:45-54 | a new invitation is listed for its organisation's members before its seventh day is over, and not afterwards |
| Invitations.SecondInvitationRefusedUntilExpiry | HourMap/Controllers/InvitationController.cs:92-96 | while an invitation is live, inviting the same address to the same organisation again is refused and saves nothing |
| Invitations.CancelRemovesExactly | HourMap/Controllers/InvitationController.cs:140-173 | cancelling removes exactly the invitation with that id and keeps ids unique |
| Entities.User.LoginEnabled | HourMap/Entities/ApplicationUser.cs:25 | sign-in is enabled when lockout is off or its end has passed |
| Entities.Normalize | HourMap/Controllers/AuthController.cs:56 | the key Identity stores for user names and e-mail addresses and looks them up by: as long as the text, with no lower-case ASCII letter, and every other character kept |
| Entities.NormalizeIdempotent | HourMap/Controllers/AuthController.cs:119 | a stored key normalises to itself, so looking up a key finds it |
| Entities.NormalizeIgnoresCase | HourMap/Controllers/AuthController.cs:119 | a name and its lower-cased form have the same key, so the lookup ignores ASCII letter case |
| Entities.EmailKey | HourMap/Controllers/UserController.cs:325 | an address's lookup key is its normalised form, and a missing address has none |
| Entities.Refresh | HourMap/Controllers/UserController.cs:248-255 | the user as `UserManager` saves it: both lookup keys current, nothing else changed, and a user whose keys were current unchanged |
| Entities.FindUser | HourMap/Controllers/TimeEntryController.cs:363 | the first user with the id (`FirstOrDefaultAsync(u => u.Id == userId)`), which is a stored user with that id, or none exactly when no user has it |
| Accounts.LockedOut | HourMap/Controllers/AuthController.cs:125 | the account is refused at `now` exactly when a lockout end lies strictly ahead |
| Accounts.NewAccount | HourMap/Controllers/AuthController.cs:47-53 | the account `Register` and `RegisterInvitedUser` build (lines 87-94 for the latter): the address as both user name and e-mail, current lookup keys, the given names, organisation and single role, no job title or pay rate, not managing, and never locked out |
| Accounts.Create | HourMap/Controllers/AuthController.cs:56-57 | an unaccepted account or a taken normalised user name is BadRequest, so a name differing only in letter case collides; an accepted, free name whose id is taken makes the save throw, a ServerError; otherwise the account is appended |
| Accounts.NameTaken | HourMap/Controllers/AuthController.cs:56 | some account's stored user-name key is the name's normalised form |
| Accounts.IdTaken | HourMap/Controllers/AuthController.cs:56 | some account already has the id, the table's primary key |
| Accounts.Register | HourMap/Controllers/AuthController.cs:36-65 | registration succeeds exactly when creation does, creating a Manager with no organisation whose user name, e-mail and both lookup keys come from the address; a refusal is BadRequest when creation is not accepted or the name is taken and ServerError when only the id collides, and changes nothing |
| Accounts.FindToken | HourMap/Controllers/AuthController.cs:81 | the first invitation carrying the token, or none when no invitation carries it |
| Accounts.RegisterInvitedUser | HourMap/Controllers/AuthController.cs:72-107 | an unknown or expired token is BadRequest. For a live token, a collision of the new id alone is ServerError, and success, which needs the invited address free up to letter case, creates an Employee of the inviting organisation under that address and deletes the invitation. Every refusal is BadRequest or ServerError and changes nothing |
| Accounts.FindByName | HourMap/Controllers/AuthController.cs:119 | the first user whose stored normalised name equals the normalised name asked for, or none when nobody's does |
| Accounts.Login | HourMap/Controllers/AuthController.cs:115-144 | login succeeds exactly when the user name, in any letter case, finds an account, the password matches and no lockout lies ahead; every failure is Unauthorized |
| Accounts.RegisteredManagerCanLogIn | HourMap/Controllers/AuthController.cs:36-144 | a newly registered manager can log in at once, typing the address in any letter case, with an accepted password, and holds the Manager role |
| Accounts.TokenRedeemedOnce | HourMap/Controllers/AuthController.cs:72-107 | with unique tokens, a token that has registered an account is refused afterwards |
| Accounts.ExpiryInstantAcceptedButNotListed | HourMap/Controllers/AuthController.cs:82 | at the instant an invitation expires, its token still registers an account although the listing no longer shows it |
| Accounts.FailedRegistrationKeepsInvitation | HourMap/Controllers/AuthController.cs:96-106 | a creation refused as not accepted is BadRequest and keeps the invitation redeemable |
| Accounts.CaseVariantRegistrationRefused | HourMap/Controllers/AuthController.cs:56-64 | registering an address that differs from an existing user name only in letter case is BadRequest and changes nothing |
| UserAdmin.OrganizationOf | HourMap/Controllers/UserController.cs:93-97 | a missing or empty organisation claim is Unauthorized; a claim that is not a 32-bit integer is BadRequest; otherwise its value |
| UserAdmin.FindMember | HourMap/Controllers/UserController.cs:99 | the first user with that id in that organisation, or none when there is no such user |
| UserAdmin.Target | HourMap/Controllers/UserController.cs:93-101 | claim errors pass through; a user outside the caller's organisation is NotFound; otherwise that member |
| UserAdmin.Put | HourMap/Controllers/UserController.cs:103-109 | saving one user replaces that row and no other |
| UserAdmin.Lock | HourMap/Controllers/UserController.cs:320-324 | only the lockout fields change. An account that passes the guard is locked out at exactly the instants before now plus a hundred years and reports login disabled until then; otherwise it is left as it is |
| UserAdmin.DisableSignIn | HourMap/Controllers/UserController.cs:308-330 | claim and membership errors pass through unchanged; otherwise the target, locked when it has no lockout end or one strictly in the past, is saved through `UpdateAsync` with both lookup keys derived afresh from its name and e-mail |
| UserAdmin.DisableSignInFixed | HourMap/Controllers/UserController.cs:308-330 | with the guard `<=`, a successful disable always leaves the target locked out now, never shortens a running lockout, and saves the target with refreshed lookup keys |
| UserAdmin.EnableSignIn | HourMap/Controllers/UserController.cs:335-355 | claim and membership errors pass through; otherwise only the target changes, with lockout switched off, its end cleared and both lookup keys derived afresh by `UpdateAsync` |
| UserAdmin.FindByNameAt | HourMap/Controllers/AuthController.cs:119 | with unique normalised user names, login finds each user by any spelling of its name that normalises to its key |
| UserAdmin.DisabledUserCannotLogIn | HourMap/Controllers/UserController.cs:320-324 | with unique names and current user-name keys, after the corrected disable, login under the user's name is Unauthorized at every instant until the new lockout ends, whatever the password |
| UserAdmin.DisableSignInLocksUnlessEndingNow | HourMap/Controllers/UserController.cs:320-325 | the guard as written leaves the target locked out now in every case but a lockout ending exactly now, never shortens a running lockout, and leaves an already locked-out target as it was apart from its refreshed keys |
| UserAdmin.DisableAtLockoutEndLeavesLoginOpen | HourMap/Controllers/UserController.cs:320-325 | a user whose lockout ends exactly now is answered Ok, saved unlocked with refreshed keys, and logs in at that instant |
| UserAdmin.EnabledUserCanLogIn | HourMap/Controllers/UserController.cs:347-349 | with unique names and current user-name keys, after enabling, the account reports login enabled, and login under its name succeeds exactly when the password matches |
| UserAdmin.AddManagerRole | HourMap/Controllers/UserController.cs:230-267 | a current Manager is BadRequest and saves nothing. Otherwise the target is flagged as managing the organisation; an Employee role becomes Manager, and that swap, made through `UserManager`, refreshes both lookup keys; nobody else changes |
| UserAdmin.RemoveManagerRole | HourMap/Controllers/UserController.cs:272-303 | every member target succeeds and ends up not managing the organisation without the Manager role; a Manager becomes an Employee, with both lookup keys refreshed by that swap; nobody else changes |
| UserAdmin.PromoteThenDemote | HourMap/Controllers/UserController.cs:230-303 | promoting an Employee and demoting them restores their roles, leaving the management flag cleared and the lookup keys refreshed; a user whose keys were current comes back unchanged but for the flag |
| UserAdmin.PromotionWithoutEmployeeRole | HourMap/Controllers/UserController.cs:244-260 | a target with neither role is answered Ok and flagged as managing the organisation, without receiving the Manager role |
| UserAdmin.EditUserByManager | HourMap/Controllers/UserController.cs:91-112 | claim and membership errors pass through; otherwise the member's names, e-mail, job title and pay rate are replaced and nothing else changes |
| UserAdmin.EditKeepsLookupKeys | HourMap/Controllers/UserController.cs:103-109 | a manager's edit leaves every user-name lookup, the e-mail keys and the sign-in state as they were, so until the next `UserManager` update of that user the newly assigned address is not taken for invitations while the replaced one still is |
| UserAdmin.SignInSwitchPublishesEditedAddress | HourMap/Controllers/UserController.cs:103-109 | after a manager sets a user's e-mail, disabling that user's sign-in (line 325) saves the new e-mail key, so the address is then taken for invitations, and is shared, making the invitation throw, if another account already stored that key |
| UserAdmin.NameKeysStayCurrent | HourMap/Controllers/UserController.cs:103-349 | no administration action leaves a user-name key out of date: the sign-in switches and role changes refresh it, and edits never change a user name |
| UserAdmin.RegistrationKeepsNameKeys | HourMap/Controllers/AuthController.cs:47-56 | both registrations store the new account's user-name key in step with its name |
| UserAdmin.FindById | HourMap/Controllers/UserController.cs:119 | the index found holds the id; none means no user has it |
| UserAdmin.EditMyProfile | HourMap/Controllers/UserController.cs:117-136 | as written: NotFound exactly for an unknown id, otherwise that user's names and e-mail are rewritten whoever the caller is |
| UserAdmin.EditOwnProfile | HourMap/Controllers/UserController.cs:117-136 | corrected: NotFound for an unknown id, Unauthorized for another caller's profile; a success rewrites only the caller's names and e-mail |
| UserAdmin.AnyCallerEditsAnyProfile | HourMap/Controllers/UserController.cs:119-124 | as written, a caller edits another user's profile, which the corrected version refuses |
| UserAdmin.OwnProfileOnly | HourMap/Controllers/UserController.cs:123-128 | the corrected edit changes no profile but the caller's, and never the pay rate or job title |
| UserAdmin.FindProjectIn | HourMap/Controllers/UserController.cs:184 | the first project with that id in that organisation, or none |
| UserAdmin.FindAssignment | HourMap/Controllers/UserController.cs:188 | the first assignment of that user to that project, or none |
| UserAdmin.RemoveProjectFromUser | HourMap/Controllers/UserController.cs:172-196 | it succeeds exactly when the member, the project in the caller's organisation and the assignment all exist; every refusal saves nothing; a success removes that assignment |
| UserAdmin.RemoveProjectExactly | HourMap/Controllers/UserController.cs:172-196 | with unique (user, project) keys, exactly that assignment goes and all others stay |
| Projects.FindProject | HourMap/Controllers/ProjectController.cs:244-246 | the index found holds the id; none means no project has it |
| Projects.KnownIds | HourMap/Controllers/ProjectController.cs:252-255 | the ids found are exactly the requested ids that belong to users, and distinct when user ids are |
| Projects.Except | HourMap/Controllers/ProjectController.cs:259 | `Except` keeps exactly the distinct elements of the first list missing from the second |
| Projects.InvalidIds | HourMap/Controllers/ProjectController.cs:259 | the reported invalid ids are exactly the requested ids of no user, and none exactly when all belong to users |
| Projects.Assign | HourMap/Controllers/ProjectController.cs:270-275 | one assignment per id, to the project, in its organisation |
| Projects.Unassign | HourMap/Controllers/ProjectController.cs:268 | exactly the assignments of other projects remain |
| Projects.UpdateProjectUsers | HourMap/Controllers/ProjectController.cs:241-287 | as written: an unknown project is NotFound. The request is BadRequest exactly when fewer users are found than ids were sent, and the refusal lists the requested ids that belong to no user, without repeats. Otherwise the project's assignments are replaced by one per user found. A refusal saves nothing |
| Projects.UpdateProjectUsersFixed | HourMap/Controllers/ProjectController.cs:251-265 | corrected: BadRequest exactly when some requested id belongs to no user, listing exactly those ids; otherwise the assignments are replaced |
| Projects.SubsetCard | HourMap/Controllers/ProjectController.cs:257 | a subset is no larger than its superset, and equal to it when as large |
| Projects.CountCheckAcceptsExactly | HourMap/Controllers/ProjectController.cs:252-257 | the count check passes exactly when every id belongs to a user and none is repeated |
| Projects.RepeatedIdRefused | HourMap/Controllers/ProjectController.cs:257-265 | as written, sending a valid id twice is refused, and the refusal's list of invalid ids is empty |
| Projects.FixedAcceptsRepeats | HourMap/Controllers/ProjectController.cs:251-265 | without repeated ids the corrected and the written update agree, including the ids a refusal lists |
| Projects.UpdateReplacesAssignments | HourMap/Controllers/ProjectController.cs:267-286 | after an update the project has exactly one assignment per requested id, in its organisation, and no other project's assignments change |
| Projects.AssignMembers | HourMap/Controllers/ProjectController.cs:270-275 | the created assignments are exactly those of the given ids to the project, and repeat none when the ids repeat none |
| Projects.ProjectPart | HourMap/Controllers/ProjectController.cs:268-283 | after the replacement, the project's part of the table is exactly the new assignments |
| Projects.FilterNone | HourMap/Controllers/ProjectController.cs:268 | filtering with a predicate nothing satisfies leaves nothing |
| Projects.FilterAll | HourMap/Controllers/ProjectController.cs:270-275 | filtering with a predicate everything satisfies keeps everything |
| Projects.GetProjectsByUser | HourMap/Controllers/ProjectController.cs:65-99 | a missing or unknown caller is Unauthorized and one without an organisation BadRequest; otherwise exactly the enabled projects of the caller's organisation the caller is assigned to |
| Projects.AssignedIds | HourMap/Controllers/ProjectController.cs:214-223 | exactly the users assigned to the project |
| Projects.GetAssignedUsers | HourMap/Controllers/ProjectController.cs:207-231 | an unknown project is NotFound; otherwise exactly the users assigned to it, empty exactly when it has no assignment |
| Projects.AssignedAfterUpdate | HourMap/Controllers/ProjectController.cs:207-287 | after the assignments are replaced, the project lists exactly the requested users |
| Projects.UpdateProject | HourMap/Controllers/ProjectController.cs:170-181 | an unknown id is NotFound and saves nothing; otherwise only that project's name, description and enabled flag change |
| Projects.UpdateProjectIdempotent | HourMap/Controllers/ProjectController.cs:170-181 | updating a project twice with the same values is the same as updating it once |
| Projects.DisabledProjectNotListed | HourMap/Controllers/ProjectController.cs:86-89 | a disabled project appears on no user's project list |
| Common.FilterAppend | HourMap/Controllers/TimeEntryController.cs:371-376 | filtering distributes over concatenation, so it keeps relative order |
| Common.ElemsCard | HourMap/Controllers/ProjectController.cs:257 | a list has at least as many positions as distinct elements, and exactly as many when no element repeats |

## Left out

- `XmlConvert.ToString` is a framework call. The operations that store a duration take the encoder as a parameter, and `Duration.Encode` stands for it on whole seconds. Fractional seconds, and spans beyond the range of `TimeSpan`, are not modelled.
- Time: instants are integers in seconds (milliseconds on the frontend). UTC versus local time, `toLocaleString` and the `'Z'` suffix are not modelled. The mapping from an instant to a calendar date is a parameter of the timeclock page.
- `Timeclock.PayPeriod` returns calendar stamps. The ISO strings sent to the server (`toISOString().split('T')[0]`) are not modelled.
- `filterTimeEntries` (timeclock.component.ts:220-231) is not modelled on its own: it ends by calling `updateDisplayedEntries`, which filters again by calendar day. The model keeps only that second filter.
- Password hashing, token issuing (JWT), `UpdateRoleClaimsAsync` and Identity's password and user-name rules are not modelled. A hash check is a function parameter. Identity's verdict on a new account is a boolean `accepted`; only the "id or user name already taken" part of it is modelled.
- `[Authorize]` role gates run before a controller action. The model assumes the caller passed them, and claims are parameters (`Option`).
- The Entity Framework layer is not modelled: change tracking, `Include` and SQL translation. Database failures of `SaveChanges` ("Result is null") and concurrency are also out. The identity column is modelled as "one more than the largest key".
- DTO validation (`ModelState.IsValid`) is not modelled. For registration it is folded into the `accepted` verdict; for login an invalid body would be BadRequest, which the model does not produce.
- A failed `UserManager.UpdateAsync` in the sign-in switches, or a failed role change, would be BadRequest. Identity validates the user name and e-mail there; the model takes that validation to pass, since no action changes a user name after creation. What the update does to the stored user, deriving both lookup keys afresh, is modelled (`Entities.Refresh`).
- `UpdateRoleClaimsAsync` (UserController.cs:358-382) only rewrites role claims that a user already has. No code stores a claim, so it changes nothing and is not modelled.
- `InviteUser` answers with a registration link built from the host and the token. The model returns the stored invitation, which carries the token.
- The frontend's HTTP calls, observables, console logging and change detection are not modelled.
- Locations, organisations, seeding, the fallback controller and the project create, delete and list actions are outside the core.
- `UserAdmin.Lock`: `AddYears(100)` is taken as a fixed 36524 days. Calendar-exact year arithmetic is not modelled, because only "far in the future" matters to the lockout check.
- `Text.ParseInt32`: `int.TryParse` is modelled without leading or trailing white space, thousands separators or culture settings, which the claims never carry.
- `Duration.SecondsGroup`: `parseFloat` of a fractional seconds field is modelled through its integer and fraction digits. Floating-point rounding is not modelled; hours are exact reals.
- `Reports.PayrollReport` and `Reports.ProjectReport` sum exact reals rather than doubles, so rounding of `TotalHours` is not modelled.
- `Text.ToLower`: case folding covers ASCII letters only, whereas JavaScript folds all of Unicode.
- `Entities.Normalize`: the identity normaliser upper-cases with `ToUpperInvariant`, which folds every script; the model folds ASCII letters only.
- `Accounts.Create`: name collisions are found up to ASCII letter case only, as `Entities.Normalize` folds no other script.
- `Accounts.Register`: refuses a case variant of an existing name only for ASCII letters, for the same reason.
- `Accounts.RegisterInvitedUser`: the invited address is compared with the existing names up to ASCII letter case only.
- `Accounts.FindByName`: ignores the case of ASCII letters only, whereas the real lookup ignores it in every script.
- `Accounts.Login`: finds the account under a name differing in non-ASCII letter case not at all, where the real lookup would.
- `Invitations.InviteUser`: compares the invited address with the stored e-mail keys up to ASCII letter case only.

## Findings

| source | as written | input that shows it | evidently intended | confidence | as-written member | corrected member |
|---|---|---|---|---|---|---|
| hourmap-frontend/src/app/components/timeclock/timeclock.component.ts:234 | the pattern requires a `T` after the optional day field | a shift of exactly 24 hours is stored as `P1D`, and the page reads it as 0 hours | the `T` part optional, so whole-day spans read as 24·d hours | not executed | DurationLaws.WholeDaysReadAsZero | DurationLaws.HoursRoundTrip |
| HourMap/Controllers/ProjectController.cs:257-265 | the request is refused when the number of users found differs from the number of ids sent | `userIds = [u, u]` for an existing user `u`: refused with BadRequest and an empty `invalidUserIds` | refuse only when some id belongs to no user, as the comment at line 251 says | not executed | Projects.RepeatedIdRefused | Projects.UpdateProjectUsersFixed |
| HourMap/Controllers/UserController.cs:320 | a user is locked only when `LockoutEnd == null \|\| LockoutEnd < now` | a user whose `LockoutEnd` equals now: the call answers Ok, locks nothing, and login succeeds at that instant | `LockoutEnd <= now`, the same boundary `Login` uses, so disabling always locks | not executed | UserAdmin.DisableAtLockoutEndLeavesLoginOpen | UserAdmin.DisabledUserCannotLogIn |
| HourMap/Controllers/UserController.cs:119-124 | the user is found by the route id and then compared with that same id, so the check never fails | a caller with id `a` sends `edit-my-profile/b`: user `b`'s names and e-mail are rewritten | compare the route id with the caller's own id claim, as the message "You can only edit your own profile" says | not executed | UserAdmin.AnyCallerEditsAnyProfile | UserAdmin.OwnProfileOnly |
