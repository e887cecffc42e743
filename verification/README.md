# Omega Phi rush tooling, modelled in Dafny

This project models the rules at the core of the Omega Phi rush-management web app. That app schedules interviews between rushees (applicants) and brothers (interviewers). The model covers:

- **The interview grid.** It has one tab per interview date, one row per rushee and one column per half-hour slot from 9:00 to 21:00. Each cell decides three things:
  - whether the rushee is free for the whole slot (containment);
  - which interviewers could take it (overlap);
  - whether an assignment already books it (same rushee, start within one second).
  It then renders a scheduled, available or empty cell.
- **The popover that schedules an interview.** It lists the free interviewers and lets an administrator tick at most two of them. It checks the submission in a fixed order and settles its state once the create action answers.
- **The removal of an assignment from a scheduled cell.**
- **Two database migrations, with their tables modelled as arrays updated in place.**
  - One moves availabilities stored on 1970-01-01 onto the UTC day of their interview date, keeping the UTC time of day.
  - The other links each user availability to the first interview date whose window contains it.
  Both count the rows they fix or migrate and the rows they skip.
- **The resume-preview form.**
  - Its normalisers turn parser output into values for `<input type="time">` and `<input type="date">`, and back into the server's RFC 3339 (section 5.6) timestamps.
  - Its editable list of availability rows, and what submitting sends.
- **The zod validation schemas.** Each schema is a list of issues; an input is accepted exactly when the list is empty.
- **The request middleware:** public paths, and the redirect to `/login`.
- **The sidebar's remembered open state.** It reads from a cookie string, which is the `name=value; name=value` serialization of section 5.4 of RFC 6265, and writes back to it.
- **The dashboard breadcrumbs.**
- **The e-mail dialog.** It gives the addresses to copy and the guards and variable fields of its two letters.
- **The "My Interviews" card.** It shows the partner interviewer and the display fallbacks.

Timestamps are integers (milliseconds since the epoch, UTC), and an Invalid Date is `None`. Day keys and all other text are `string`.

Some behaviour depends on the JavaScript engine, the time zone or a library: `new Date(string)` in the resume-preview form, local calendar fields, date-fns `format`, `localeCompare`, and zod's e-mail and date-time tests. The model takes these as function parameters, and the properties hold for every choice of them. The one exception is the scheduler's parse of the slot strings it builds itself. `Calendar.ParseUtcDateTime` models that parse concretely, following V8.

The server actions that create and delete assignments are opaque outcomes (`ActionOutcome`). A failing database call in a migration is a fault parameter that names which call fails.

The shared modules are:

- `Wrappers`: `Option`.
- `Text`: split, join, pad, digits.
- `Seqs`: filter, find, a stable insertion sort, map.
- `Calendar`: UTC days, the civil calendar, ISO date-time parsing.
- `Records`: the row types of the database.

Where the code and its description differ, the model follows the code:

- The middleware treats an empty session cookie as no session, since `!sessionCookie` is a truthiness test.
- The card shows a major only when it is non-empty, for the same reason.
- The upload rule's message says "less than 10MB", but a file of exactly 10 MiB (10485760 bytes) passes the `<=` test. `ValidationSchema.FileAccepted` states this boundary.

## Model

| member | source | states |
|---|---|---|
| InterviewScheduler.GenerateTimeSlots | src/components/interview-scheduler/InterviewScheduler.tsx:14-21 | the loop yields `2*(end-start)` labels when `start < end` and none otherwise; label `i` is hour `start + i/2` followed by `:00` for even `i` and `:30` for odd `i` |
| InterviewScheduler.GridSlots | src/components/interview-scheduler/InterviewScheduler.tsx:59 | the grid's slot list has 24 labels, the first `9:00`, the last `20:30` |
| InterviewScheduler.PadTime | src/components/interview-scheduler/InterviewScheduler.tsx:29-32 | padding fails (the code would call `padStart` on `undefined`) exactly when the label has no `:` |
| InterviewScheduler.PadTimeOfParts | src/components/interview-scheduler/InterviewScheduler.tsx:29-32 | `hour:minute` pads each side on its own to two characters with `0`; longer sides are kept |
| InterviewScheduler.SlotLabelPadded | src/components/interview-scheduler/InterviewScheduler.tsx:17-18 | a label of an hour below 100 pads to a well-formed `HH:MM` whose fields read back as that hour and 0 or 30 minutes |
| InterviewScheduler.GridLabelPadded | src/components/interview-scheduler/InterviewScheduler.tsx:171 | grid label `i` pads to `HH:MM` naming hour `9 + i/2` and minute `30*(i%2)` |
| Calendar.ParseUtcDateTime | src/components/interview-scheduler/InterviewScheduler.tsx:172 | a valid time value comes only from a well-formed `YYYY-MM-DDTHH:MM:SSZ` string with in-range fields |
| Calendar.ParseAtTimeOfDay | src/components/interview-scheduler/InterviewScheduler.tsx:172 | on a day valid at midnight, `dayTHH:MM:00Z` is that many hours and minutes after midnight |
| InterviewScheduler.SlotStartAt | src/components/interview-scheduler/InterviewScheduler.tsx:171-172 | a slot whose label pads to `HH:MM` starts that many hours and minutes after the day's UTC midnight |
| InterviewScheduler.GridSlotStart | src/components/interview-scheduler/InterviewScheduler.tsx:171-172 | slot `i` of a valid day starts `9:00 + 30*i` minutes after midnight |
| InterviewScheduler.SlotEndOffset | src/components/interview-scheduler/InterviewScheduler.tsx:173 | a slot ends 30 minutes after it starts, where the next grid offset begins |
| InterviewScheduler.GridSlotsContiguous | src/components/interview-scheduler/InterviewScheduler.tsx:171-173 | each slot of a valid day ends exactly where the next begins, and the last ends at 21:00 |
| InterviewScheduler.DistinctDates | src/components/interview-scheduler/InterviewScheduler.tsx:49-57 | one day key per interview date, duplicates kept (same multiset of keys) |
| InterviewScheduler.DistinctDatesSorted | src/components/interview-scheduler/InterviewScheduler.tsx:49-57 | the keys are in ascending character order; every interview date's key is there, and no other |
| InterviewScheduler.InterviewDateForDay | src/components/interview-scheduler/InterviewScheduler.tsx:223-232 | the date handed to a day's cells is an interview date on that day; there is none exactly when no interview date falls on it |
| InterviewScheduler.ContainsImpliesOverlaps | src/components/interview-scheduler/InterviewScheduler.tsx:198-212 | an availability window that contains the slot also overlaps it |
| InterviewScheduler.CellCovering | src/components/interview-scheduler/InterviewScheduler.tsx:95-103 | a cell lists exactly the rushee's availabilities on that day that have both times and contain the slot |
| InterviewScheduler.CellAt | src/components/interview-scheduler/InterviewScheduler.tsx:95-131 | the props of the cell at a slot start; their meaning is stated by `InterviewScheduler.CellCovering`, `InterviewScheduler.CellAvailability`, `InterviewScheduler.CellInterviewers` and `InterviewScheduler.CellBooking` |
| InterviewScheduler.Cell | src/components/interview-scheduler/InterviewScheduler.tsx:171-213 | the cell of a slot label, parsed to its start; its meaning is stated by `InterviewScheduler.SlotStartAt` and the cell lemmas |
| InterviewScheduler.CellAvailability | src/components/interview-scheduler/InterviewScheduler.tsx:191-203 | the rushee is available iff some availability of theirs on that day, with both times, contains the slot |
| InterviewScheduler.CellInterviewers | src/components/interview-scheduler/InterviewScheduler.tsx:105-113 | the interviewers offered are exactly the availabilities on that day with both times that overlap the slot, whoever they belong to |
| InterviewScheduler.ContainingInterviewerOffered | src/components/interview-scheduler/InterviewScheduler.tsx:206-213 | every interviewer availability that day that contains the slot is offered |
| InterviewScheduler.CellBooking | src/components/interview-scheduler/InterviewScheduler.tsx:115-131 | the slot is scheduled iff an assignment of that day (through its interview date id) is for the rushee and starts within 1000 ms; the cell carries the first such assignment |
| InterviewScheduler.Panel | src/components/interview-scheduler/InterviewScheduler.tsx:133-138 | the panel built for a day is that day's tab |
| InterviewScheduler.PanelShape | src/components/interview-scheduler/InterviewScheduler.tsx:153-239 | a tab has the 24 grid slots, a row per rushee in the given order, and in each row the cell of each slot |
| InterviewScheduler.RenderMessages | src/components/interview-scheduler/InterviewScheduler.tsx:61-75 | no interview dates shows the first message; dates but no rushees shows the second; otherwise the tabs |
| InterviewScheduler.Render | src/components/interview-scheduler/InterviewScheduler.tsx:61-94 | the scheduler's view; its meaning is stated by `InterviewScheduler.RenderMessages`, `InterviewScheduler.RenderTabs` and `InterviewScheduler.RenderTabsOrder` |
| InterviewScheduler.RenderTabs | src/components/interview-scheduler/InterviewScheduler.tsx:77-94 | one tab per interview date, the first open by default, each tab the panel of its day |
| InterviewScheduler.RenderTabsOrder | src/components/interview-scheduler/InterviewScheduler.tsx:79-94 | the tabs are in ascending day-key order and every interview date's day has a tab |
| TimeSlotCell.TitleLines | src/components/interview-scheduler/TimeSlotCell.tsx:148-158 | the hover text of an available cell splits at line breaks into one `Available: start - end` line per covering availability |
| TimeSlotCell.RenderCell | src/components/interview-scheduler/TimeSlotCell.tsx:160-195 | scheduled wins over available, which wins over empty; green iff scheduled; the popover gets the cell's own slot, rushee, date and availabilities; an empty cell has no title |
| TimeSlotCell.InterviewerNames | src/components/interview-scheduler/TimeSlotCell.tsx:67-76 | the pair is written only when the assignment and both interviewers are present, starting with interviewer 1's name |
| TimeSlotCell.ScheduledCell.constructor | src/components/interview-scheduler/TimeSlotCell.tsx:36-41 | a scheduled cell starts not deleting |
| TimeSlotCell.ScheduledCell.HandleDelete | src/components/interview-scheduler/TimeSlotCell.tsx:43-57 | without an assignment nothing is asked and nothing changes; otherwise that assignment's id is sent and the cell ends not deleting whatever the answer |
| SchedulePopover.Toggle | src/components/interview-scheduler/SchedulePopover.tsx:37-46 | ticking with fewer than two selected appends the user at the end; ticking with two keeps the selection as it is; unticking leaves exactly the other users; at most two stay at most two |
| SchedulePopover.UntickRemovesAll | src/components/interview-scheduler/SchedulePopover.tsx:44 | unticking removes every occurrence of the user and keeps every other user as often as they were selected |
| SchedulePopover.UntickKeepsOrder | src/components/interview-scheduler/SchedulePopover.tsx:44 | unticking keeps the order of the rest: a concatenation unticks part by part, and a single entry stays exactly when it is another user |
| SchedulePopover.ReplayKeepsAtMostTwo | src/components/interview-scheduler/SchedulePopover.tsx:37-46 | from at most two, any series of checkbox changes leaves at most two selected |
| SchedulePopover.Settle | src/components/interview-scheduler/SchedulePopover.tsx:73-86 | success clears the selection and the error; a failure keeps the selection, and its message is the action's non-empty message, else `Failed to create interview assignment`; a throw keeps the selection with `An unexpected error occurred` |
| SchedulePopover.SchedulePopover.constructor | src/components/interview-scheduler/SchedulePopover.tsx:27-35 | no one selected, no error, not submitting |
| SchedulePopover.SchedulePopover.HandleCheckboxChange | src/components/interview-scheduler/SchedulePopover.tsx:37-46 | the selection becomes `Toggle` of the old one; the error clears only when a tick takes effect; the selection stays at most two |
| SchedulePopover.SchedulePopover.HandleSubmit | src/components/interview-scheduler/SchedulePopover.tsx:48-87 | the count check comes first, then the missing date, each stopping with its message; otherwise the request carries the slot, rushee, date id and pair, the state settles as `Settle` says, and submitting ends false |
| SchedulePopover.DisplayName | src/components/interview-scheduler/SchedulePopover.tsx:121-128 | the label is the user's non-empty name; without one, the non-empty e-mail; without both, or without a user, `Unknown User`; never empty |
| SchedulePopover.SortedInterviewersOrdered | src/components/interview-scheduler/SchedulePopover.tsx:121-128 | the list holds exactly the offered availabilities, ordered by label under any consistent comparison |
| SchedulePopover.PopoverView | src/components/interview-scheduler/SchedulePopover.tsx:116-178 | no offered interviewers shows only the message; otherwise one checkbox per availability |
| SchedulePopover.PopoverViewOptions | src/components/interview-scheduler/SchedulePopover.tsx:129-171 | every offered availability gets a checkbox, checked iff its user is selected, disabled iff unchecked with two selected; the button is disabled iff submitting or not exactly two are selected, and reads `Scheduling...` while submitting; the count and the error shown are the state's |
| AvailabilityDateFix.UtcFieldsSpellTimeOfDay | src/db/migrations/fix_user_availability_dates.ts:64-69 | the UTC hours, minutes, seconds and milliseconds are in range and add up to the time of day |
| AvailabilityDateFix.RecombineParts | src/db/migrations/fix_user_availability_dates.ts:63-77 | the rebuilt instant lies on the interview date's UTC day and keeps the original UTC hours, minutes, seconds and milliseconds |
| AvailabilityDateFix.RecombineIdempotent | src/db/migrations/fix_user_availability_dates.ts:63-77 | rebuilding an already rebuilt instant on the same day changes nothing |
| AvailabilityDateFix.DateMapLookup | src/db/migrations/fix_user_availability_dates.ts:30-33 | the map knows exactly the interview date ids and gives each the date of the last interview date with that id |
| AvailabilityDateFix.BuildDateMap | src/db/migrations/fix_user_availability_dates.ts:30-33 | the `forEach` loop builds that map |
| AvailabilityDateFix.UserTargetDate | src/db/migrations/fix_user_availability_dates.ts:40-56 | a row is moved only when it has both times |
| AvailabilityDateFix.FixUserRowEffect | src/db/migrations/fix_user_availability_dates.ts:39-88 | skipped iff the id is missing or empty, a time is missing, or no interview date has the id, and then unchanged; otherwise date becomes the interview date, both times move onto its UTC day with their time of day kept, and only `updatedAt` else changes |
| AvailabilityDateFix.FixUserRowIdempotent | src/db/migrations/fix_user_availability_dates.ts:59-88 | fixing a fixed row again changes only `updatedAt` |
| AvailabilityDateFix.MoveUserRowsById | src/db/migrations/fix_user_availability_dates.ts:80-88 | the update writes the four columns of the rows with that id and leaves every other row |
| AvailabilityDateFix.ProcessUserRow | src/db/migrations/fix_user_availability_dates.ts:40-90 | one row is skipped iff it has no target, fails iff its update is the failing call (table untouched), and otherwise keeps the table fixed for the rows done |
| AvailabilityDateFix.FixUserRows | src/db/migrations/fix_user_availability_dates.ts:35-95 | the loop returns the counts of fixed and skipped rows, or the error of a failing update it reaches; on success every selected row is fixed |
| AvailabilityDateFix.AllUserRowsFixed | src/db/migrations/fix_user_availability_dates.ts:15-19 | rows without an interview date id are the ones left out, and fixing leaves them anyway, so processing the selected rows fixes the whole table |
| AvailabilityDateFix.FixUserAvailabilityDates | src/db/migrations/fix_user_availability_dates.ts:11-113 | the result is the counts over the selected rows, or `{success:false, error}` from the first failing call reached; on success every row is fixed; a failing query changes nothing; every row ends as it was or fixed |
| AvailabilityDateFix.FirstOnIsoDate | src/db/migrations/fix_user_availability_dates.ts:149-152 | a match is an interview date of the list |
| AvailabilityDateFix.FirstOnIsoDateIsFirst | src/db/migrations/fix_user_availability_dates.ts:149-152 | nothing is found iff no interview date has the ISO date, and otherwise the first that has it; `undefined` finds nothing |
| AvailabilityDateFix.RusheeTarget | src/db/migrations/fix_user_availability_dates.ts:140-160 | a rushee row is moved only when it has both times |
| AvailabilityDateFix.FixRusheeRowEffect | src/db/migrations/fix_user_availability_dates.ts:139-193 | a null date never matches; skipped iff a time or the date is missing or no interview date shares its ISO date, and then unchanged; otherwise it takes the first such date's id and date, and its times move onto that UTC day keeping their time of day |
| AvailabilityDateFix.FixRusheeRowIdempotent | src/db/migrations/fix_user_availability_dates.ts:163-193 | fixing a fixed rushee row again changes only `updatedAt` |
| AvailabilityDateFix.MoveRusheeRowsById | src/db/migrations/fix_user_availability_dates.ts:184-193 | the update writes the five columns of the rows with that id and leaves every other row |
| AvailabilityDateFix.ProcessRusheeRow | src/db/migrations/fix_user_availability_dates.ts:139-200 | one rushee row is skipped iff it has no target, fails iff its update is the failing call, and otherwise keeps the table fixed for the rows done |
| AvailabilityDateFix.FixRusheeRows | src/db/migrations/fix_user_availability_dates.ts:135-200 | the rushee loop returns its counts or the failing update's error; on success every row is fixed |
| AvailabilityDateFix.FixRusheeAvailabilityDates | src/db/migrations/fix_user_availability_dates.ts:116-218 | over all rushee rows, keyed by `toISOString` dates: the counts or the error; on success every row is fixed; every row ends as it was or fixed |
| AvailabilityDateFix.RunAvailabilityDateFix | src/db/migrations/fix_user_availability_dates.ts:221-235 | both fixes run and both results are returned, the rushee fix whatever the user fix returned; each table ends as its fix leaves it: fully fixed on success, unchanged after a failing query, and every row as it was or fixed |
| AvailabilityMigration.FirstCovering | src/db/migrations/migrate_availabilities.ts:40-50 | the match is an interview date on the row's date whose window contains its times |
| AvailabilityMigration.FirstCoveringIsFirst | src/db/migrations/migrate_availabilities.ts:40-50 | nothing is found iff no interview date covers the row, and otherwise the first that does |
| AvailabilityMigration.MigrationTarget | src/db/migrations/migrate_availabilities.ts:27-50 | a row is migrated only when it has its date and both times |
| AvailabilityMigration.MigrateRowEffect | src/db/migrations/migrate_availabilities.ts:26-71 | skipped iff date or a time is missing or nothing covers it, and then unchanged; otherwise it gets the id of the first covering interview date and only `updatedAt` else changes |
| AvailabilityMigration.MigrateRowTwice | src/db/migrations/migrate_availabilities.ts:14-17 | a migrated row is not selected again, and a skipped one is skipped again, so a second run adds nothing |
| AvailabilityMigration.Outcome | src/db/migrations/migrate_availabilities.ts:78-86 | on success `migrated + skipped = total = rows selected`, `migrated` the rows with a match; the error is rethrown iff the failing call is reached |
| AvailabilityMigration.SetInterviewDateById | src/db/migrations/migrate_availabilities.ts:54-60 | the update writes the interview date id and `updatedAt` of the rows with that id and leaves every other row |
| AvailabilityMigration.ProcessRow | src/db/migrations/migrate_availabilities.ts:27-71 | one row fails iff its lookup or update is the failing call (table untouched), is skipped iff it has no target, and otherwise keeps the table migrated for the rows done |
| AvailabilityMigration.MigrateRows | src/db/migrations/migrate_availabilities.ts:23-72 | the loop's result is `Outcome`; on success every selected row is migrated |
| AvailabilityMigration.AllRowsMigrated | src/db/migrations/migrate_availabilities.ts:14-17 | processing the selected rows leaves every selected row migrated and every other row as it was |
| AvailabilityMigration.MigrateUserAvailabilities | src/db/migrations/migrate_availabilities.ts:9-87 | the result is `Outcome` over the rows without an interview date id; on success those are migrated and the rest untouched; a failing select changes nothing; every row ends as it was or migrated |
| PreviewForm.FormatTimeForInputShape | src/components/pdf-upload/RusheePreviewForm.tsx:31-63 | "" stays ""; `HH:MM` is kept; `HH:MM:SS` loses its seconds; anything else is "" iff it does not parse, else its UTC hours and minutes; the result is "" or `HH:MM` and a fixed point |
| PreviewForm.FormatTimeForInput | src/components/pdf-upload/RusheePreviewForm.tsx:31-63 | the branches of `formatTimeForInput`; their meaning is stated by `PreviewForm.FormatTimeForInputShape` |
| PreviewForm.UtcTimeString | src/components/pdf-upload/RusheePreviewForm.tsx:56-58 | the padded UTC hours and minutes form `HH:MM` and read back as those numbers |
| PreviewForm.FormatDateForInputShape | src/components/pdf-upload/RusheePreviewForm.tsx:66-93 | "" stays ""; `YYYY-MM-DD` is kept; anything else is "" iff it does not parse, else its local date, which is `YYYY-MM-DD` and a fixed point for four-digit years |
| PreviewForm.FormatDateForInput | src/components/pdf-upload/RusheePreviewForm.tsx:66-93 | the branches of `formatDateForInput`; their meaning is stated by `PreviewForm.FormatDateForInputShape` |
| PreviewForm.LocalDateString | src/components/pdf-upload/RusheePreviewForm.tsx:85-88 | `${year}-${MM}-${DD}` of a four-digit year is `YYYY-MM-DD` and reads back as the date |
| PreviewForm.FormatTimeForServerShape | src/components/pdf-upload/RusheePreviewForm.tsx:96-107 | a date and an `HH:MM` time give the 24-character RFC 3339 date-time with those fields and zero seconds, from which both read back |
| PreviewForm.FormatTimeForServer | src/components/pdf-upload/RusheePreviewForm.tsx:96-107 | `formatTimeForServer`; its meaning is stated by `PreviewForm.FormatTimeForServerShape` |
| PreviewForm.ValidAvailabilitiesSnoc | src/components/pdf-upload/RusheePreviewForm.tsx:192-198 | one more row at the end adds its converted form iff it is complete |
| PreviewForm.ValidAvailabilities | src/components/pdf-upload/RusheePreviewForm.tsx:192-198 | the filter-then-convert of the submitted rows; its meaning is stated by `PreviewForm.ValidAvailabilitiesSnoc` and `PreviewForm.ValidAvailabilitiesSpec` |
| PreviewForm.ValidAvailabilitiesSpec | src/components/pdf-upload/RusheePreviewForm.tsx:192-198 | nothing survives iff no row is complete; each submitted row comes from a complete row with its date and its times on that date |
| PreviewForm.BlankRowsAreNotSubmitted | src/components/pdf-upload/RusheePreviewForm.tsx:173-186 | adding a blank row, or removing an incomplete one, does not change what is submitted |
| PreviewForm.RemoveIncomplete | src/components/pdf-upload/RusheePreviewForm.tsx:173-175 | removing an incomplete row does not change what is submitted |
| PreviewForm.RusheePreviewForm.constructor | src/components/pdf-upload/RusheePreviewForm.tsx:124-151 | the details are copied with missing optional ones as "", and every availability is normalised for the inputs |
| PreviewForm.RusheePreviewForm.HandleRusheeDataChange | src/components/pdf-upload/RusheePreviewForm.tsx:154-159 | sets the named detail and nothing else |
| PreviewForm.RusheePreviewForm.HandleAvailabilityChange | src/components/pdf-upload/RusheePreviewForm.tsx:161-171 | sets one field of row `index`; the length, the other rows and the details stay; an index outside the list changes nothing |
| PreviewForm.RusheePreviewForm.RemoveAvailability | src/components/pdf-upload/RusheePreviewForm.tsx:173-175 | drops exactly row `index`, keeping the others in order |
| PreviewForm.RusheePreviewForm.AddAvailability | src/components/pdf-upload/RusheePreviewForm.tsx:177-186 | appends one blank row |
| PreviewForm.RusheePreviewForm.SubmitPayload | src/components/pdf-upload/RusheePreviewForm.tsx:188-214 | nothing is sent iff no row is complete; otherwise the details and the complete rows, converted |
| PreviewForm.RusheePreviewForm.EnabledSubmit | src/components/pdf-upload/RusheePreviewForm.tsx:397-404 | with the button enabled and every row complete, every row is sent |
| ValidationSchema.DateIssues | src/lib/zod/schema.ts:5-16 | a date field passes iff it is a valid date; a missing one reports its required message, a non-date its type message, an Invalid Date `Invalid date`, all on the field's path |
| ValidationSchema.UserAvailabilityAccepted | src/lib/zod/schema.ts:3-21 | accepted iff all three are valid dates and end is after start; with valid dates the only issue is `End time must be after start time` on `endTime` |
| ValidationSchema.UserAvailabilityIssues | src/lib/zod/schema.ts:3-21 | the issues of the user-availability schema; their meaning is stated by `ValidationSchema.UserAvailabilityAccepted` |
| ValidationSchema.RusheeAccepted | src/lib/zod/schema.ts:24-29 | accepted iff the name has 1 to 255 characters and the e-mail passes the e-mail test and has at most 255; phone and major never matter |
| ValidationSchema.RusheeIssues | src/lib/zod/schema.ts:24-29 | the issues of the rushee schema; their meaning is stated by `ValidationSchema.RusheeAccepted` |
| ValidationSchema.AvailabilityAccepted | src/lib/zod/schema.ts:32-38 | accepted iff the date is exactly `dddd-dd-dd` and both times pass the date-time test; `2024-13-45` passes the date rule |
| ValidationSchema.AvailabilityIssues | src/lib/zod/schema.ts:32-38 | the issues of the availability schema; their meaning is stated by `ValidationSchema.AvailabilityAccepted` |
| ValidationSchema.AvailabilitiesAccepted | src/lib/zod/schema.ts:43 | the array passes iff every availability passes |
| ValidationSchema.ResponseAccepted | src/lib/zod/schema.ts:41-44 | a parser response is valid iff its rushee and every availability are valid |
| ValidationSchema.FileAccepted | src/lib/zod/schema.ts:47-56 | accepted iff the type is `application/pdf` and the size is at most 10485760 bytes; exactly 10 MiB passes and one byte more fails |
| ValidationSchema.FileIssues | src/lib/zod/schema.ts:47-56 | the issues of the file schema; their meaning is stated by `ValidationSchema.FileAccepted` |
| Middleware.Route | src/middleware.ts:19-39 | a redirect always goes to `/login` |
| Middleware.RouteDecision | src/middleware.ts:15-39 | redirect iff no session and the path is not public; the cookie's value beyond present and non-empty does not matter; an empty cookie counts as none |
| Middleware.PassesThrough | src/middleware.ts:24-39 | public paths always pass, and every path passes with a session, admin routes included |
| Middleware.PublicPathExamples | src/middleware.ts:8-22 | `/api/auth/x` and `//x` are public, `/api/authx` and `/dashboard` are not; `/dashboard` without a session redirects, `/login` passes |
| Middleware.NotPublic | src/middleware.ts:8-17 | a path whose second character is not `/` and that starts with none of the public prefixes is not public |
| Sidebar.GetCookieValue | src/components/sidebar/sidebar-wrapper.tsx:8-17 | a value found is non-empty and holds no `;` |
| Sidebar.GetCookieValueCases | src/components/sidebar/sidebar-wrapper.tsx:8-17 | no document, no separator or more than one separator gives none; a single separator gives the longest `;`-free text after it, or none when that is empty |
| Sidebar.CookieValueOnce | src/components/sidebar/sidebar-wrapper.tsx:11-15 | with the separator found once, the value runs from after it to the next `;` |
| Sidebar.FirstCookieFound | src/components/sidebar/sidebar-wrapper.tsx:11-12 | a cookie string starting `name=` has the separator at position 0 |
| Sidebar.OtherNameNotMatched | src/components/sidebar/sidebar-wrapper.tsx:11-16 | a single cookie not starting `name=`, such as `my_sidebar_state=…`, gives no value |
| Sidebar.MaxAgeString | src/components/sidebar/sidebar-wrapper.tsx:39-41 | the max-age is written `604800` |
| Sidebar.OpenStateCookieWritten | src/components/sidebar/sidebar-wrapper.tsx:36-42 | the write is `sidebar_state=<b>; path=/; max-age=604800`, whose stored pair is `sidebar_state=<b>` |
| Sidebar.OpenStateCookieReadsBack | src/components/sidebar/sidebar-wrapper.tsx:11-15 | a cookie string starting with the stored pair, with no other `sidebar_state` after it, reads back `<b>` |
| Sidebar.SidebarWrapper.constructor | src/components/sidebar/sidebar-wrapper.tsx:24-25 | open, not hydrated |
| Sidebar.SidebarWrapper.Hydrate | src/components/sidebar/sidebar-wrapper.tsx:27-34 | a saved value opens iff it is `true`, none keeps the state; hydrated afterwards |
| Sidebar.SidebarWrapper.HandleOpenChange | src/components/sidebar/sidebar-wrapper.tsx:36-42 | records the new state and returns the cookie write |
| Sidebar.SidebarWrapper.ReportedOpen | src/components/sidebar/sidebar-wrapper.tsx:47-48 | open before hydration, the state after |
| Sidebar.ReloadAfterChange | src/components/sidebar/sidebar-wrapper.tsx:27-48 | after a change, the next page load reports the new state |
| DashboardHeader.Segments | src/components/sidebar/dashboard-header.tsx:18 | no segment is empty or contains `/` |
| DashboardHeader.SegmentsOfRoot | src/components/sidebar/dashboard-header.tsx:18 | `/` has no segments |
| DashboardHeader.SegmentsOfJoin | src/components/sidebar/dashboard-header.tsx:18 | `/` followed by non-empty `/`-free parts joined by `/` has exactly those parts as segments |
| DashboardHeader.UpperAscii | src/components/sidebar/dashboard-header.tsx:24 | a character is kept or is a lower-case ASCII letter made upper-case |
| DashboardHeader.Capitalize | src/components/sidebar/dashboard-header.tsx:24 | capitalising keeps the length |
| DashboardHeader.FormatSegment | src/components/sidebar/dashboard-header.tsx:21-26 | split at `-`, capitalised and joined with spaces; its meaning is stated by `DashboardHeader.FormatSegmentShape` |
| DashboardHeader.FormatSegmentShape | src/components/sidebar/dashboard-header.tsx:21-26 | character `i` of a formatted segment is a space where the segment has `-`, the upper-cased character where a word starts (position 0 or after `-`), and the segment's own character elsewhere; so it has the segment's length and no `-` |
| DashboardHeader.Breadcrumbs | src/components/sidebar/dashboard-header.tsx:33-53 | one crumb per segment after the root crumb |
| DashboardHeader.CrumbAt | src/components/sidebar/dashboard-header.tsx:37-52 | crumb `i + 1` is the crumb of segment `i` |
| DashboardHeader.BreadcrumbsShape | src/components/sidebar/dashboard-header.tsx:34-49 | the root link to `/` comes first, the last segment is the page, every other crumb links, and each is titled with its formatted segment |
| DashboardHeader.CrumbHref | src/components/sidebar/dashboard-header.tsx:44-46 | segment `i` links to `/` and the first `i + 1` segments joined by `/`, extending the previous link, which is a prefix of it |
| EmailDialog.RusheeEmail | src/components/interview-scheduler/EmailDialog.tsx:142-144 | the rushee's e-mail when there is a non-empty one, else "" |
| EmailDialog.GetBrothersEmails | src/components/interview-scheduler/EmailDialog.tsx:146-153 | the push-and-join gives interviewer 1's then interviewer 2's e-mail, each only if non-empty, separated by `, ` |
| EmailDialog.ListedEmails | src/components/interview-scheduler/EmailDialog.tsx:146-151 | at most two addresses are listed, none empty |
| EmailDialog.BrothersEmailsSplit | src/components/interview-scheduler/EmailDialog.tsx:146-153 | when no address contains `, `, splitting the text on `, ` gives back exactly the listed addresses |
| EmailDialog.RusheeLetter | src/components/interview-scheduler/EmailDialog.tsx:29-63 | no letter iff there is no rushee; otherwise it starts `Hello <name>,` |
| EmailDialog.BrothersLetter | src/components/interview-scheduler/EmailDialog.tsx:66-139 | no letter iff the rushee or an interviewer is missing; otherwise it has the field `Name: <rushee name>` |
| EmailDialog.LettersAgree | src/components/interview-scheduler/EmailDialog.tsx:83-94 | when the brothers' letter exists, so does the rushee's, with the same date and time |
| EmailDialog.EmailDialogState.constructor | src/components/interview-scheduler/EmailDialog.tsx:26 | the rushee tab is open first |
| EmailDialog.EmailDialogState.SetActiveTab | src/components/interview-scheduler/EmailDialog.tsx:210 | switching tabs opens the chosen one |
| EmailDialog.EmailDialogState.ShownLetter | src/components/interview-scheduler/EmailDialog.tsx:216-245 | the text area is empty iff there is no rushee, or the brothers tab is open and an interviewer is missing; the rushee tab greets the rushee by name; the brothers tab greets `Hello Brothers,` and names the rushee |
| Interviews.Partner | src/components/dashboard/Interviews.tsx:84-89 | the partner as written: none iff neither interviewer joined, otherwise one of the two |
| Interviews.PartnerIgnoresViewer | src/components/dashboard/Interviews.tsx:84-89 | for consistently joined data the partner as written is always interviewer 2, so a viewer who is interviewer 2 sees themself |
| Interviews.PartnerOf | src/components/dashboard/Interviews.tsx:84-89 | the corrected partner: none iff neither interviewer joined, otherwise one of the two |
| Interviews.PartnerIsTheOther | src/components/dashboard/Interviews.tsx:83-89 | with two distinct interviewers and the viewer one of them, the corrected partner is the other; when the viewer is interviewer 1 it agrees with the code |
| Interviews.InterviewCard | src/components/dashboard/Interviews.tsx:84-128 | one entry with the partner as written; its meaning is stated by `Interviews.InterviewCardFallbacks` |
| Interviews.CorrectedInterviewCard | src/components/dashboard/Interviews.tsx:84-128 | the entry with the corrected partner; its meaning is stated by `Interviews.CorrectedInterviewCardPartner` |
| Interviews.CorrectedInterviewCardPartner | src/components/dashboard/Interviews.tsx:84-128 | the corrected entry differs from the card's only in the partner line, which names the viewer's other interviewer when both joined and are distinct |
| Interviews.InterviewCardFallbacks | src/components/dashboard/Interviews.tsx:98-128 | `No date` iff the day did not join; the times are the two formatted times; `Unknown` iff there is no rushee name; a major iff a non-empty one; a partner line iff some interviewer joined, naming one of them, and for consistently joined data with both, interviewer 2 |
| Interviews.InterviewsCard | src/components/dashboard/Interviews.tsx:56-65 | an empty list shows `You have no scheduled interviews`; otherwise one entry per interview, in order, each the card as written |

## Left out

- **The clock.** `new Date()` for `updatedAt` is the parameter `now`.
- **Database plumbing.**
  - Queries and updates are reads and loops over in-memory arrays whose row ids are unique.
  - A failing call is a fault parameter; the model does not cover which call the driver actually fails on, or partial writes inside one call.
  - The migration's `.limit(1)` lookup takes interview dates in array order, and the real table order is not modelled.
- **Engine- and library-dependent text.** `new Date(string)` in the resume-preview form, local calendar fields, date-fns `format`/`parseISO`, `toLocaleDateString` and `localeCompare` are parameters. Nothing is claimed about their output beyond what the properties assume.
  - Calendar.ParseUtcDateTime: the scheduler's parse of `YYYY-MM-DDTHH:MM:SSZ` follows V8. A day of 1 to 31 runs on into the next month, and `24:00:00` is accepted; other engines give an Invalid Date for inputs such as `2024-02-30T09:00:00Z`. The grid only builds hours 9 to 20, so `24:00` never arises. The day keys come from `Calendar.DayKey` of real instants, so their day always lies within its month, but the model does not prove that.
  - The `format` header labels and the tab captions are not modelled.
  - The years that ECMAScript's Date cannot hold are not modelled, nor the `RangeError` that `toISOString` then throws; `InterviewScheduler.SlotStartAt` and its callers do not model the Date range limit (±8.64e15 ms).
- **zod's own tests.** `.email()` and `.datetime()` are the parameters `isEmail` and `isDatetime`, because their exact patterns depend on the zod version.
  - String lengths count Dafny characters, where zod counts UTF-16 code units.
  - The `instanceof File` rejection of non-file input is not modelled.
  - Zod's exact issue ordering across nested objects is not modelled.
- **Async behaviour.** Transitions, promises and `await` are not modelled: each handler runs as one sequential step, and a server action's answer is the `ActionOutcome` parameter. The create and delete actions themselves are not part of this model.
  - The preview form's save (`saveEditedRushee`, `onSuccess`) is not modelled. `PreviewForm.RusheePreviewForm.SubmitPayload` gives the payload it would send.
- **UI.** The following are not modelled:
  - markup and class names other than the cell colours;
  - the clipboard calls;
  - `makeInterviewDateIdRequired`, which only logs;
  - console logging;
  - the fixed prose of the two letters. Only their guards, greeting and labelled fields are kept.
- **Field names.** `handleRusheeDataChange` and `handleAvailabilityChange` take any string as the field. The model uses enumerations of the real fields, so edits that name an unknown key, which the code would add as a new property, are not modelled.
- **The middleware matcher** (`src/middleware.ts:43-45`). It decides which requests reach the middleware at all, and is not modelled.
- **Upper-casing.** DashboardHeader.UpperAscii: `toUpperCase` is modelled for ASCII letters only. The length property holds for that mapping, and non-ASCII case mappings (some change length) are not modelled.
- **React keys.** Duplicate React keys, such as two equal segments or two equal day keys, affect only React's reconciliation and are not modelled.
- **The cookie jar.** The browser's cookie jar is a string. The stored pair and any later cookies are a `tail`, and path and expiry handling are not modelled.
- **Interview query.** The query that loads a member's interviews (`getUserInterviews`) is not part of this model. The card takes its joined rows as input.

## Findings

| source | as written | input that shows it | evidently intended | confidence | as-written member | corrected member |
|---|---|---|---|---|---|---|
| src/components/dashboard/Interviews.tsx:84-89 | with both interviewers joined, the partner is interviewer 1 when `interviewer1.id !== interview.interviewer1Id`, else interviewer 2; the test compares the join with its own foreign key and never looks at the viewer | interview `iv` with `interviewer1Id = "u1"`, `interviewer2Id = "u2"`, both joined consistently, seen by member `u2`: the card shows `u2` as their own partner | the partner is "the other interviewer": compare with the viewer's id, so `u2` sees `u1` and `u1` sees `u2` | medium, not executed (the query that loads the rows is not in view) | Interviews.PartnerIgnoresViewer | Interviews.PartnerIsTheOther |
