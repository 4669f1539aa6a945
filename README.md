# Medicine reminder: dose scheduling and reminders

This project models the dose-scheduling core of a medicine reminder web app in Dafny. Both copies of the scheduling logic are covered.

**The background reminder worker** (`public/reminder-worker.js`) is modelled as the class `ReminderWorker.Worker`.
- It holds the worker's four variables: `medicines`, `history`, `snoozeTimeout` and `nextDoseTimeout`.
- It also holds the host's timer table and the list of messages posted back to the page.
- Its methods are `ScheduleNextReminder`, `OnMessage` and `Fire`. `Fire` is the host running a pending timer.
- Each method is proved to move the state exactly as a pure function says: `Scheduled`, `Handled` or `Fired`.
- The worker's promises are lemmas about those functions.
- The next-dose calculator and the taken-today check are the pure functions `DoseSchedule.NextDoseTime` and `DoseSchedule.TakenToday`.
- The choice of the closest dose is `Selection.FirstEarliest`.

**The dashboard page** (`src/app/dashboard/page.tsx`) is modelled in module `Dashboard`, with its time pattern in `TimeFormat`.
- `groupedMedicines` is the loop method `GroupMedicines`.
- The page's own next-dose selection and countdown is the loop method `UpdateNextDose`, with its weekly rule `DashNextDoseTime`.
- The history filter for a selected day and the delete filter are pure functions.

Time is local wall-clock time in integer milliseconds (module `Clock`):
- the instant's day number is `t / 86400000`;
- its time of day is `t % 86400000`;
- its weekday is `(day + 4) % 7`, since day 0 (1970-01-01) was a Thursday and `0` is Sunday as in `Date.getDay`;
- a "calendar date" is a day number.

Timers are handles into the host's timer table, and `clearTimeout` marks a timer as no longer pending.

Module `Scenarios` states runs of the worker model on one daily 08:00 medicine:
- at 07:00 it arms a timer for today;
- at 09:00 it arms one for tomorrow;
- once the dose is logged it arms nothing;
- after a snooze, the reminder is posted five minutes later and tomorrow's dose is armed;
- a natural timer that runs exactly on time posts the reminder and arms nothing (see "## Findings"); with the corrected reschedule it arms tomorrow's dose.

The two copies of the weekly rule disagree:
- the worker always targets Sunday;
- the dashboard takes its day count from the dose's own weekday, which is today's, so a weekly dose shows as today or seven days later.

`Dashboard.WeeklyRulesAgreeOnlyOnSunday` states this exactly. The model keeps both as written.

## Model

| member | source | states |
|---|---|---|
| Clock.MsOfDay | public/reminder-worker.js:10-11 | an instant's time of day lies in [0, 1 day) and, with its day number, adds back up to the instant |
| Clock.Weekday | public/reminder-worker.js:16 | `getDay()` is a weekday number in [0, 6] |
| TimeFormat.IsValidTime | src/app/dashboard/page.tsx:49 | the time pattern (an hour of one digit or of two digits from `00` to `23`, a colon, a minute from `00` to `59`, nothing else) as a predicate; `ValidTimeExactly` and `RenderAccepted` state which strings it accepts |
| TimeFormat.ParseDigits | src/app/dashboard/page.tsx:182-184 | `parseInt` of a digit string; `ParseNatToString`, `ParsePad2` and `ParseTime` state its values |
| TimeFormat.Pad2 | src/app/dashboard/page.tsx:213 | `String(n).padStart(2, '0')`; `Pad2Digits`, `ParsePad2` and `Pad2OfParse` state that it is two digits that read back as n |
| TimeFormat.ValidTimeExactly | src/app/dashboard/page.tsx:49 | the time pattern accepts a string exactly when it is `H:MM` or `HH:MM` for some hour in [0,23] and minute in [0,59] |
| TimeFormat.RenderAccepted | src/app/dashboard/page.tsx:49 | every valid hour and minute, written either way, is accepted and parses back to the same hour and minute |
| TimeFormat.ParseTime | src/app/dashboard/page.tsx:182-184 | splitting an accepted string on `:` and parsing both parts gives an hour of at most 23 and a minute of at most 59 |
| TimeFormat.OnlyColon | public/reminder-worker.js:9 | an accepted string has exactly one colon, three characters from its end, so `split(':')` yields exactly the hour and minute fields |
| TimeFormat.NatToString | src/app/dashboard/page.tsx:213 | `String(n)` is a non-empty digit string, one digit long exactly when n < 10 |
| TimeFormat.ParseNatToString | src/app/dashboard/page.tsx:212 | parsing `String(n)` gives back n |
| TimeFormat.ParsePad2 | src/app/dashboard/page.tsx:213 | below 100, the two-digit padded rendering parses back to the number |
| TimeFormat.Pad2OfParse | src/app/dashboard/page.tsx:213 | a two-digit string is the padded rendering of its own value |
| Medicines.TimeOf | public/reminder-worker.js:9-11 | a medicine's parsed time has hour at most 23 and minute at most 59 |
| Medicines.DoseOn | public/reminder-worker.js:10-11 | the instant `setHours(hour, minute, 0, 0)` gives on a day; `DoseOnDay`, `DoseOnShift` and `InstantIsDoseOn` state it |
| Medicines.DoseOnDay | public/reminder-worker.js:10-11 | `setHours(hour, minute, 0, 0)` stays on the same day, at exactly that hour and minute with zero seconds |
| Medicines.DoseOnShift | public/reminder-worker.js:23-26 | `setDate(getDate() + n)` moves a dose instant by exactly n whole days |
| Selection.FirstEarliest | public/reminder-worker.js:53-65 | the walk picks nothing exactly when no entry has a candidate; otherwise it picks a candidate no later than any other and strictly earlier than every candidate before it, so the first wins ties |
| Selection.FirstEarliestUnique | public/reminder-worker.js:61 | those properties determine the choice |
| Selection.FirstEarliestStep | public/reminder-worker.js:61-64 | one step of the walk replaces the choice so far by the current entry exactly when it has a candidate strictly earlier than the choice, or there is no choice yet |
| DoseSchedule.NextDoseTime | public/reminder-worker.js:8-29 | `getNextDoseTime`; `DailyNextDose`, `WeeklyNextDose`, `WeeklyEarliest` and `NextDoseAtDoseInstant` state its value for each frequency |
| DoseSchedule.DailyNextDose | public/reminder-worker.js:8-29 | a daily dose is at the medicine's time of day, today exactly when that is not before `now` and tomorrow otherwise, in `[now, now + 1 day)`, and no later than any instant at or after `now` at that time of day |
| DoseSchedule.WeeklyNextDose | public/reminder-worker.js:13-21 | a weekly dose is on a Sunday at the medicine's time of day, never before `now`, less than seven days after it, and seven days on exactly when today is Sunday and the time has passed |
| DoseSchedule.WeeklyEarliest | public/reminder-worker.js:14-20 | the weekly dose is no later than any Sunday instant at the medicine's time of day at or after `now` |
| DoseSchedule.WeeklyIsDoseOn | public/reminder-worker.js:15-20 | the weekly dose is the dose instant `WeeklyDays` days after today, and not before `now` |
| DoseSchedule.WeeklyDays | public/reminder-worker.js:16-19 | the weekly rule moves a dose forward by between 0 and 7 days |
| DoseSchedule.DaysUntilSunday | public/reminder-worker.js:16 | `(0 - getDay() + 7) % 7` days on is a Sunday |
| DoseSchedule.LaterSunday | public/reminder-worker.js:16-18 | any Sunday from today on is at least that many days away, and at least seven when the count is 0 and the Sunday is not today |
| DoseSchedule.DoseOnMonotone | public/reminder-worker.js:20 | dose instants are ordered as their days are |
| DoseSchedule.InstantIsDoseOn | public/reminder-worker.js:10-11 | any instant at the medicine's time of day is that day's dose instant |
| DoseSchedule.TakenToday | public/reminder-worker.js:31-40 | `wasTakenToday` holds exactly when some history entry has the medicine's id and today's date |
| DoseSchedule.TakenTodayAppend | public/reminder-worker.js:33-39 | the answer over a concatenated history is the disjunction of the answers, so appending can only turn false into true |
| DoseSchedule.TakenTodayIgnoresOthers | public/reminder-worker.js:35-38 | an entry for another medicine or another day, added before or after, never changes the answer |
| DoseSchedule.Candidates | public/reminder-worker.js:53-59 | the worker has one candidate slot per medicine |
| DoseSchedule.Closest | public/reminder-worker.js:53-65 | the worker's choice of the closest untaken dose; `ClosestSpec`, `TakenNeverChosen` and `FindClosest` state it |
| DoseSchedule.ClosestSpec | public/reminder-worker.js:53-65 | the chosen medicine was not taken today; its dose is no later than that of any medicine not taken today and strictly earlier than that of every such medicine before it; nothing is chosen exactly when every medicine was taken today |
| DoseSchedule.TakenNeverChosen | public/reminder-worker.js:54-57 | a medicine with a history entry dated today is never chosen |
| ReminderWorker.Cancel | public/reminder-worker.js:46-47 | `clearTimeout` stops exactly the named timer and leaves every other timer and the table size as they were |
| ReminderWorker.Armed | public/reminder-worker.js:67-75 | the timer a reschedule arms, if any; `ScheduledArms` and `FindClosest` state it |
| ReminderWorker.Arm | public/reminder-worker.js:67-75 | arming the `Armed` timer after the two timers are cleared; `ScheduledArms` and `ScheduledStoresHandle` state it |
| ReminderWorker.Scheduled | public/reminder-worker.js:44-76 | the state after `scheduleNextReminder`; `ScheduledCancelsFirst`, `ScheduledStoresHandle`, `ScheduledArms` and `Worker.ScheduleNextReminder` state it |
| ReminderWorker.Handled | public/reminder-worker.js:78-94 | the state after `onmessage`; `UpdateDataReplaces`, `UpdateDataIdempotent`, `SnoozeDefers`, `OtherMessageIgnored` and `Worker.OnMessage` state it |
| ReminderWorker.Fired | public/reminder-worker.js:70-73 | the state after a timer callback posts its payload and reschedules; `FiredPosts`, `OnTimeFireArmsNothing` and `Worker.Fire` state it |
| ReminderWorker.ScheduledCancelsFirst | public/reminder-worker.js:44-47 | a reschedule cancels the stored natural and snooze timers, leaves every other timer, the data, the snooze handle and the posted messages alone, and arms at most one timer |
| ReminderWorker.ScheduledStoresHandle | public/reminder-worker.js:69-70 | when a reschedule arms nothing the stored natural handle is kept as it was; when it arms a timer the handle names that new pending natural timer |
| ReminderWorker.ScheduledArms | public/reminder-worker.js:67-75 | no timer is armed exactly when every medicine was taken today or the closest untaken dose is not after `now`; otherwise the one new timer is a pending natural timer for an untaken medicine, at that medicine's next dose, after `now`, no later than any other untaken dose and strictly earlier than that of every untaken medicine before it in the list, and the stored natural handle names it |
| ReminderWorker.EmptyListArmsNothing | public/reminder-worker.js:67 | with no medicines no timer is armed |
| ReminderWorker.ScheduledKeepsNaturalUnique | public/reminder-worker.js:46-47 | a reschedule keeps at most one natural timer pending, named by the stored handle |
| ReminderWorker.NaturalUniqueInvariant | public/reminder-worker.js:44-94 | every message and every firing keeps at most one natural timer pending |
| ReminderWorker.NaturalUniqueInit | public/reminder-worker.js:2-5 | the initial state has no pending natural timer |
| ReminderWorker.Pending | public/reminder-worker.js:70 | the pending list holds exactly the live timers of the table, in the order they were armed |
| ReminderWorker.PendingSame | public/reminder-worker.js:46-47 | two timer tables that agree on liveness and on every live timer have the same pending list |
| ReminderWorker.PendingAppend | public/reminder-worker.js:70 | arming a timer adds it at the end of the pending list |
| ReminderWorker.CancelLast | public/reminder-worker.js:46 | cancelling the last-armed timer by its handle marks only that timer as no longer pending |
| ReminderWorker.CancelDead | public/reminder-worker.js:46-47 | `clearTimeout` on a handle whose timer is no longer pending, or on an unknown handle, changes nothing |
| ReminderWorker.RearmOne | public/reminder-worker.js:44-75 | cancelling the timer just armed and arming the same one again leaves the same pending timers |
| ReminderWorker.RearmSamePending | public/reminder-worker.js:44-75 | a second reschedule that arms the same timer, or none, as the first leaves the same pending timers as the first |
| ReminderWorker.UpdateDataReplaces | public/reminder-worker.js:81-85 | `UPDATE_DATA` replaces both lists wholesale, a missing field becoming empty, and keeps the posted messages and the snooze handle |
| ReminderWorker.UpdateDataIdempotent | public/reminder-worker.js:81-85 | the same `UPDATE_DATA` twice at the same instant leaves the same pending timers and the same data as once |
| ReminderWorker.SnoozeDefers | public/reminder-worker.js:87-93 | `SNOOZE` cancels only the stored natural timer, arms a pending snooze timer 300000 ms on that carries the given payload unchanged, stores its handle, and leaves every other timer and the data alone |
| ReminderWorker.OtherMessageIgnored | public/reminder-worker.js:78-94 | a message whose type is neither `UPDATE_DATA` nor `SNOOZE` changes nothing |
| ReminderWorker.BackToBackSnoozes | public/reminder-worker.js:87-93 | two snoozes in a row leave both snooze timers pending, the first no longer named by any stored handle |
| ReminderWorker.OrphanStaysPending | public/reminder-worker.js:44-47 | a pending timer that no stored handle names stays pending whatever message arrives and whichever other timer runs |
| ReminderWorker.SnoozeOutlivesUpdate | public/reminder-worker.js:87-93 | after two snoozes and any `UPDATE_DATA`, the first snooze timer is still pending and unreachable |
| ReminderWorker.ScheduledSingle | public/reminder-worker.js:44-47 | a reschedule from a state whose pending timers are all named by a stored handle leaves at most one pending timer |
| ReminderWorker.CancelBothClears | public/reminder-worker.js:46-47 | when every pending timer is named by a stored handle, clearing both handles leaves no timer pending |
| ReminderWorker.AppendedSingle | public/reminder-worker.js:69-70 | a table whose only pending timer is the last one, named by a stored handle, has a single timer pending |
| ReminderWorker.SnoozeSingle | public/reminder-worker.js:87-93 | a snooze that also clears the stored snooze timer keeps at most one timer pending |
| ReminderWorker.HandledSingle | public/reminder-worker.js:87-93 | `onmessage` with a `SNOOZE` that also clears the stored snooze timer; `SnoozeSingle` and `SingleTimerInvariant` state it |
| ReminderWorker.SingleTimerInvariant | public/reminder-worker.js:87-93 | with a snooze that also clears the stored snooze timer, every message and every firing keeps at most one timer pending, and the initial state has none |
| ReminderWorker.FiredPosts | public/reminder-worker.js:70-73 | a firing posts exactly the timer's payload after the earlier posts, and the timer is no longer pending |
| ReminderWorker.NextDoseAtDoseInstant | public/reminder-worker.js:8-29 | at the very instant a dose is due the calculator returns that instant again |
| ReminderWorker.OnTimeFireArmsNothing | public/reminder-worker.js:67-73 | a natural timer that runs exactly at its instant, for a medicine still listed and not taken, leads to no new timer |
| ReminderWorker.NextDoseAfter | public/reminder-worker.js:23-26 | the corrected next dose is strictly after `now` and at the medicine's time of day |
| ReminderWorker.NextDoseAfterBounds | public/reminder-worker.js:8-29 | the next dose from the following millisecond on is after `now` and at the medicine's time of day |
| ReminderWorker.CandidatesAfter | public/reminder-worker.js:53-59 | the corrected walk has one candidate slot per medicine |
| ReminderWorker.ClosestAfter | public/reminder-worker.js:53-65 | the corrected choice of the closest untaken dose after `now`; `ClosestAfterSpec` states it |
| ReminderWorker.ClosestAfterSpec | public/reminder-worker.js:53-65 | the corrected choice picks nothing exactly when every medicine was taken today, and otherwise an untaken medicine whose dose after `now` is no later than any other untaken medicine's |
| ReminderWorker.ScheduledAfter | public/reminder-worker.js:44-76 | `scheduleNextReminder` with the corrected choice; `ScheduledAfterArms` states it |
| ReminderWorker.FiredAfter | public/reminder-worker.js:70-73 | a timer callback followed by the corrected reschedule; `OnTimeFireRearms` states it |
| ReminderWorker.ScheduledAfterArms | public/reminder-worker.js:67-75 | the corrected reschedule arms one timer exactly when some medicine was not taken today: a pending natural timer after `now`, at an untaken medicine's next later dose, no later than any other's, named by the stored handle |
| ReminderWorker.OnTimeFireRearms | public/reminder-worker.js:70-73 | with the correction, a natural timer that runs exactly on time for a medicine still listed and not taken is followed by a new pending timer after `now` |
| ReminderWorker.FindClosest | public/reminder-worker.js:50-65 | the `forEach` loop ends with the closest untaken dose and its medicine, or nothing when every medicine was taken today, as `Closest` chooses; and the timer the source then arms is the one `Scheduled` arms |
| ReminderWorker.Worker.constructor | public/reminder-worker.js:2-5 | the worker starts with empty lists, no handles and no timers |
| ReminderWorker.Worker.ClearTimeout | public/reminder-worker.js:46 | `clearTimeout` changes only the timer table, as `Cancel` says |
| ReminderWorker.Worker.SetTimeout | public/reminder-worker.js:70 | `setTimeout` appends one pending timer and returns its handle |
| ReminderWorker.Worker.ScheduleNextReminder | public/reminder-worker.js:44-76 | clearing both stored timers, then the loop and the arming step, take the state to `Scheduled` of the old state |
| ReminderWorker.Worker.ArmClosest | public/reminder-worker.js:49-75 | the loop over the medicines and the arming step take the state to `Arm` of the old state |
| ReminderWorker.Worker.OnMessage | public/reminder-worker.js:78-94 | handling a message takes the state to `Handled` of the old state |
| ReminderWorker.Worker.Fire | public/reminder-worker.js:70-73 | running a pending timer takes the state to `Fired` of the old state |
| Dashboard.Filter | src/app/dashboard/page.tsx:70 | `filter` keeps exactly the elements that satisfy the predicate |
| Dashboard.FilterInOrder | src/app/dashboard/page.tsx:70 | `filter` keeps the kept elements in their original order |
| Dashboard.FilterCounts | src/app/dashboard/page.tsx:262 | `filter` keeps each kept element as often as it occurs |
| Dashboard.FilterKeepsAll | src/app/dashboard/page.tsx:262 | filtering a list whose every element is kept gives it back |
| Dashboard.LogsForSelectedDay | src/app/dashboard/page.tsx:70 | the history filter for the selected day; `LogsForSelectedDaySpec` states it |
| Dashboard.DeleteMedicine | src/app/dashboard/page.tsx:262 | the delete filter on the medicine list; `DeleteMedicineSpec` states it |
| Dashboard.LogsForSelectedDaySpec | src/app/dashboard/page.tsx:70 | the selected day's list holds exactly that day's history entries, in order and with their multiplicities, and is empty when no day is selected; a medicine was taken on that day exactly when the list holds an entry for it |
| Dashboard.DeleteMedicineSpec | src/app/dashboard/page.tsx:262 | deleting keeps exactly the medicines with another id, in order and with their multiplicities; deleting again changes nothing; the worker never chooses a deleted medicine |
| Dashboard.InPeriod | src/app/dashboard/page.tsx:77-86 | a group is no longer than the list |
| Dashboard.GroupMedicines | src/app/dashboard/page.tsx:72-89 | the loop builds each group as the list's medicines of that period in order, and the three groups partition the list |
| Dashboard.InPeriodPartition | src/app/dashboard/page.tsx:77-86 | the three groups together hold every medicine exactly as often as the list does |
| Dashboard.InPeriodMembers | src/app/dashboard/page.tsx:78-85 | a medicine is in a group exactly when it is listed and its hour selects that group |
| Dashboard.InPeriodStep | src/app/dashboard/page.tsx:77-86 | one step of the loop appends the current medicine to the group its hour selects and to no other |
| Dashboard.InPeriodLast | src/app/dashboard/page.tsx:77-86 | the last medicine of a list is at the end of exactly the group its hour selects |
| Dashboard.PeriodOf | src/app/dashboard/page.tsx:79-85 | the group an hour selects; `PeriodRanges` states its ranges |
| Dashboard.PeriodRanges | src/app/dashboard/page.tsx:79-85 | morning is hour < 12, afternoon is 12 to 16, evening is 17 and later |
| Dashboard.DashNextDoseTime | src/app/dashboard/page.tsx:181-195 | the dashboard's next dose of one medicine; `DashWeeklyNextDose`, `DashWeeklyIsDoseOn`, `DailyRulesAgree` and `WeeklyRulesAgreeOnlyOnSunday` state it |
| Dashboard.DashWeeklyNextDose | src/app/dashboard/page.tsx:186-192 | a weekly dose on the dashboard is today when not yet passed and otherwise exactly seven days later, always on today's weekday, never before `now` and less than seven days after it |
| Dashboard.DashWeeklyIsDoseOn | src/app/dashboard/page.tsx:186-192 | the dashboard's weekly dose is today's dose instant when that is not before `now`, and otherwise the one seven days on |
| Dashboard.DailyRulesAgree | src/app/dashboard/page.tsx:193-195 | for a daily medicine the dashboard and the worker compute the same instant |
| Dashboard.WeeklyRulesAgreeOnlyOnSunday | src/app/dashboard/page.tsx:186-192 | for a weekly medicine the two rules agree exactly when today is Sunday |
| Dashboard.DashCandidates | src/app/dashboard/page.tsx:181-200 | the dashboard has one candidate per medicine |
| Dashboard.SelectionsAgree | src/app/dashboard/page.tsx:197-199 | with only daily medicines, none taken today, the dashboard shows the dose the worker arms for |
| Dashboard.DashClosestSpec | src/app/dashboard/page.tsx:181-200 | the dashboard picks a dose exactly when the list is not empty, taken or not; the dose is no later than any medicine's, and the first in list order wins ties |
| Dashboard.FindDashClosest | src/app/dashboard/page.tsx:179-200 | the `forEach` loop ends with the medicine and instant of the first earliest candidate, or nothing for an empty list |
| Dashboard.ShownDoseSpec | src/app/dashboard/page.tsx:197-203 | for a non-empty list the dose the loop keeps belongs to a listed medicine, is no later than any medicine's and strictly earlier than every one before it |
| Dashboard.Breakdown | src/app/dashboard/page.tsx:204-209 | for a positive difference, hours < 24, minutes < 60, seconds < 60, and days, hours, minutes and seconds add up to the whole seconds of the difference |
| Dashboard.ReadDaysText | src/app/dashboard/page.tsx:212 | the `Nd ` prefix reads back as the day count and is empty exactly when there are no whole days |
| Dashboard.ReadClockText | src/app/dashboard/page.tsx:213 | the `HHh MMm SSs` part reads back as the hours, minutes and seconds |
| Dashboard.CountdownText | src/app/dashboard/page.tsx:204-218 | the countdown text for a difference; `Breakdown` and `CountdownTextRoundTrip` state it |
| Dashboard.CountdownTextRoundTrip | src/app/dashboard/page.tsx:211-218 | the countdown text determines the breakdown and carries a day prefix exactly when at least one whole day is left; the due text is not a countdown |
| Dashboard.UpdateNextDose | src/app/dashboard/page.tsx:171-223 | an empty list gives no next dose and an empty text; otherwise the next dose is a listed medicine's, no later than any medicine's and strictly earlier than every one before it, with the countdown text for its distance from `now` |
| Scenarios.PillDoses | src/app/dashboard/page.tsx:49 | `08:00` is accepted and parses as 8 hours 0 minutes |
| Scenarios.ArmsForToday | public/reminder-worker.js:67-75 | a daily 08:00 medicine loaded at 07:00 gets one timer, for 08:00 today |
| Scenarios.ArmsForTomorrow | public/reminder-worker.js:23-26 | loaded at 09:00, it gets one timer, for 08:00 tomorrow |
| Scenarios.TakenDoseIdles | public/reminder-worker.js:55-57 | with a dose logged at 08:05 today, loading at 08:10 arms nothing |
| Scenarios.SnoozeAtEight | public/reminder-worker.js:87-93 | snoozed at 08:00, the 08:00 timer is cancelled and one snooze timer is pending, for 08:05 |
| Scenarios.RemindAfterSnooze | public/reminder-worker.js:89-92 | the snooze timer running at 08:05 posts the reminder and arms tomorrow's 08:00 dose |
| Scenarios.OnTimeReminderArmsNothing | public/reminder-worker.js:70-73 | the 08:00 timer running at 08:00 posts the reminder and arms nothing |
| Scenarios.OnTimeReminderRearms | public/reminder-worker.js:70-73 | with the corrected reschedule, the 08:00 timer running at 08:00 posts the reminder and arms tomorrow's 08:00 dose |

## Left out

- Timers and message passing are modelled as a table of timer records and an explicit `Fire` step, which the host may take at or after a timer's instant. Real asynchrony, the worker thread boundary and `postMessage` delivery are not modelled, and neither is a timer running before its instant.
- The JavaScript `Date` calendar is not modelled: month and year rollover, time zones, daylight-saving shifts and ISO parsing of `log.date`. A calendar date is a day number, and a history entry's date is an instant.
- Malformed medicine times that make `parseInt` return `NaN` are not modelled. Every medicine in the worker or the dashboard is required to match the dashboard's time pattern (`WellFormed`).
- DoseSchedule.TakenToday: `wasTakenToday` reads the clock again with `new Date()`. The model uses the same `now` as the reschedule that calls it, so a reschedule straddling midnight is not modelled.
- Dashboard.UpdateNextDose: each medicine's candidate is built from its own `new Date()` in the source. The model reads the clock once.
- The floating-point `/` and `%` of the countdown are integer division and remainder. They agree for the positive differences where they are used.
- The React state setters and effects, the one-second `setInterval`, form wiring, toasts and localStorage reads and writes around `deleteMedicine` are not modelled. Only the computations they feed are.
- The login and signup pages, the layout, the popup, the landing components and the Firebase wrapper are UI or storage plumbing with no scheduling logic. They are not part of this model.

## Findings

| source | as written | input that shows it | evidently intended | confidence | as-written member | corrected member |
|---|---|---|---|---|---|---|
| public/reminder-worker.js:87-93 | `SNOOZE` clears only the natural timer, then overwrites `snoozeTimeout`; an earlier pending snooze timer is never cleared and will post its reminder anyway | two `SNOOZE` messages five seconds apart, then an `UPDATE_DATA`: the first snooze timer is still pending and nothing can cancel it, so the page gets a duplicate reminder | clear the stored snooze timer too, as `scheduleNextReminder` does "to avoid duplicates", so that at most one timer is ever pending | not executed; medium: the source clears both timers everywhere else | ReminderWorker.SnoozeOutlivesUpdate | ReminderWorker.SingleTimerInvariant |
| public/reminder-worker.js:67-72 | `getNextDoseTime` moves a dose to a later day only when it is strictly before `now`, and a reminder is armed only for a positive delay; when a reminder's callback runs at exactly the dose instant, the reschedule picks that same dose with delay 0 and arms nothing at all | a daily 08:00 medicine whose natural timer runs at 08:00:00.000: the reminder is posted, then no timer is pending, so tomorrow's dose (and every other medicine's) is never reminded until the next `UPDATE_DATA` | the comment at line 72 says the callback schedules the next reminder after this one: a dose due exactly now counts as passed, so the next later dose is armed | not executed; low: a host usually runs a timer some milliseconds late, so the clock must read exactly the dose instant | ReminderWorker.OnTimeFireArmsNothing | ReminderWorker.OnTimeFireRearms |
