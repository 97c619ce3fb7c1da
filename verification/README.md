# Gym membership countdown and status machine

A Dafny model of the membership countdown of a gym back end, and of the two
places that use it: the attendance check-in controller and the nightly
status sweep. A member has a start date, a service plan (a validity period
in days and a cap on attendance days), a pre-freeze attendance credit, a
status (`pending`, `active`, `frozen`, `dormant`, `inactive`, `expired`), a
running total of check-ins and a stored `daysLeft`.

The countdown is the smaller of two limits:

- the calendar limit. This is the ceiling of the whole days from now to `startDate + period` days;
- the usage limit. This is `maxDays` minus the check-ins on or after the start date, minus the pre-freeze credit.

Files:

- `countdown.dfy` (module `Engine`): the day length, the ceiling of the
  day difference, the expiration date and the countdown.
- `members.dfy` (module `Members`): the member record, the service plan,
  the status datatype, the append-only attendance table, the store, the
  counting of attendance since the start date, the member lookup, and the
  shared per-member countdown formula.
- `checkin.dfy` (module `CheckIn`): the check-in as a pure function from
  the store, a member id and the current instant to the new store and a
  reply. It runs the duplicate check, the id and lookup checks, and the
  status guards in order. It then computes the countdown before the
  check-in, applies the controller's thresholds, appends today's record and
  updates the counters.
- `sweep.dfy` (module `Sweep`): the reconciliation sweep. It keeps the
  member filter, skips members without a plan, and applies the sweep's own
  thresholds. The sweep is a map comprehension over the store, and also a
  loop over the member ids that is proved to end in the same store.
- `agreement.dfy` (module `Agreement`): the two threshold sets compared,
  the independence of members, and examples with concrete numbers.

Time is integer milliseconds since the epoch, and a day is 86 400 000 ms.
The current instant is a parameter of every operation. "Today" is the
instant rounded down to a multiple of a day. The ceiling is integer
ceiling division, not floating point.

The two call sites use different thresholds, and the model keeps both.
The check-in deactivates at a countdown `<= -3` and marks expired at
`<= 0`. The sweep deactivates at `< -3` and marks expired at `< 0`.
`Agreement.ThresholdsDisagree` shows where they differ: at -3 and at 0.

Three details of the code that the model keeps:

- The check-in sets the status only from the countdown before the check-in
  (backend/controllers/atttendanceController.js:104 and :117). The value it
  stores is computed after the check-in (:128-130) and does not move the
  status. So a member whose usage limit is down to one day (countdown 1)
  checks in, stores 0, stays active and gets the plain success message (`Agreement.ScenarioLastAllowedDay`).
- The sweep compares strictly (backend/cron/updateUserStatuses.js:51). So a
  countdown of -3 leaves a swept member expired, where a check-in would
  deactivate it.
- The check-in always stores the countdown for "count + 1" (:128-130). If
  today's midnight is before the start date, the new record is not counted
  by a recount. When the usage limit binds, a recount at the same instant
  gives a value one higher than the one stored
  (`CheckIn.CheckInBeforeStartNotRecounted`).

Attendance records are dated at midnight, and the duplicate check compares
dates exactly (:44-46). Because every date is its own day's midnight, that
exact comparison is enough to keep at most one record per member and day
(`Members.OnePerDayAppend`).

## Model

| member | source | states |
|---|---|---|
| Engine.CeilDiv | backend/controllers/atttendanceController.js:5-6 | the result q is the integer ceiling of n/d: (q-1)·d < n <= q·d |
| Engine.DaysBetween | backend/controllers/atttendanceController.js:5-6 | the day count r is the ceiling of the millisecond difference over a day: (r-1)·DAY < to-from <= r·DAY |
| Engine.DaysBetweenUnique | backend/cron/updateUserStatuses.js:5-6 | the ceiling bounds determine the day count: any integer that meets them is the day count |
| Engine.DaysBetweenNextDay | backend/cron/updateUserStatuses.js:5-6 | one day later the calendar countdown is exactly one smaller |
| Engine.DaysBetweenMonotone | backend/controllers/atttendanceController.js:5-6 | a later instant never yields more calendar days |
| Engine.DaysBetweenWholeDays | backend/controllers/atttendanceController.js:91-92 | k whole days after the start, the calendar countdown to start + period days is period − k |
| Engine.ExpirationDate | backend/controllers/atttendanceController.js:91-92 | counted from the start date, the calendar countdown to the expiration instant is exactly the plan's period |
| Engine.IsCountdownUnique | backend/controllers/atttendanceController.js:9-13 | the countdown characterisation (at most the usage limit, at most the rounded-up days left, equal to one of them) admits exactly one value |
| Engine.Countdown | backend/controllers/atttendanceController.js:9-13 | the countdown is at most both the calendar days and the usage limit, and equals one of them (the minimum), stated both through the day count and directly on the milliseconds left |
| Engine.CountdownAfterOneMoreDay | backend/controllers/atttendanceController.js:128-130 | one more used day lowers the countdown by 0 or 1, never raises it |
| Engine.CountdownMonotoneInTime | backend/cron/updateUserStatuses.js:9-13 | the countdown never grows as the instant advances |
| Members.StartOfDay | backend/controllers/atttendanceController.js:41-42 | today is a multiple of a day, at or before now, and less than a day before it |
| Members.CountSince | backend/controllers/atttendanceController.js:94-96 | the count is at most the table size, and is zero exactly when no record of the member is on or after the start date |
| Members.OwnRecords | backend/cron/updateUserStatuses.js:41-43 | the member's own records are exactly the table's records with that member id |
| Members.CountSinceAppend | backend/controllers/atttendanceController.js:125-129 | appending a record raises the count by one exactly when the record is the member's and on or after the start |
| Members.CountSinceOwnRecords | backend/cron/updateUserStatuses.js:41-43 | the count for a member depends only on that member's own records |
| Members.OwnRecordsAppendOther | backend/controllers/atttendanceController.js:125 | another member's new record leaves a member's own records unchanged |
| Members.OnePerDayAppend | backend/controllers/atttendanceController.js:44-52 | appending a midnight record not yet present keeps a midnight-dated log midnight-dated, and keeps at most one record per member per day whenever that held before |
| Members.MemberCountdown | backend/cron/updateUserStatuses.js:38-48 | the member's countdown is at most the usage limit, at most the ceiling of (start + period days − now)/DAY, and equals one of the two |
| Members.FetchMember | backend/controllers/atttendanceController.js:17-35 | an empty id is a caller error; otherwise the member is found exactly when the id is in the store |
| CheckIn.StatusGuard | backend/controllers/atttendanceController.js:62-89 | frozen, inactive, pending and dormant are each rejected with their own reason; only active and expired pass |
| CheckIn.CountdownBefore | backend/controllers/atttendanceController.js:90-100 | the countdown before the check-in is at most the usage limit, at most the ceiling of (start + period days − now)/DAY, and equals one of the two |
| CheckIn.CheckInStatus | backend/controllers/atttendanceController.js:104-122 | the status after the thresholds is inactive exactly at countdown <= -3 (or when already inactive above 0), expired exactly in (-3, 0] (or when already expired above 0), and the prior status above 0 |
| CheckIn.CheckInVerdict | backend/controllers/atttendanceController.js:104-122 | deactivate exactly at countdown <= -3, mark expired exactly in (-3, 0], proceed exactly above 0 |
| CheckIn.CountdownAfter | backend/controllers/atttendanceController.js:128-130 | the stored countdown is the countdown with the attendance count raised by one: at most maxDays − (count + 1) − credit, at most the ceiling of (start + period days − now)/DAY, and equal to one of the two; it lies in [before − 1, before] |
| CheckIn.RecordAttendance | backend/controllers/atttendanceController.js:39-153 | only the member's own entry can change; the table gains exactly today's record on success and nothing otherwise; a duplicate is rejected first with no change; every failure except deactivation changes nothing; a log of midnight records stays so, and with it at most one record per member per day |
| CheckIn.GuardsDecide | backend/controllers/atttendanceController.js:62-89 | past the duplicate and lookup checks, each of the four blocked statuses gets its own rejection with no state change, and a status rejection happens exactly when the status is neither active nor expired |
| CheckIn.DeactivationPath | backend/controllers/atttendanceController.js:104-114 | the "now inactive" failure happens exactly when the countdown before is <= -3; it writes status inactive and nothing else, and appends no record |
| CheckIn.SuccessPath | backend/controllers/atttendanceController.js:117-151 | above -3: success; one record for today appended; total + 1; stored daysLeft is the count+1 countdown, within one of the countdown before; status expired if before <= 0, else unchanged; the reply echoes the stored values |
| CheckIn.NoticeMatchesStatus | backend/controllers/atttendanceController.js:140-143 | the renewal-reminder text is sent exactly when the resulting status is expired |
| CheckIn.RecordedIff | backend/controllers/atttendanceController.js:44-125 | a check-in succeeds exactly when it passes every guard and its countdown before is above -3 |
| CheckIn.ErrorReplies | backend/controllers/atttendanceController.js:17-92 | each error reply is given exactly in its own case: already recorded exactly when today's record exists, missing id exactly for an empty id, unknown member exactly for an id not in the store, no plan exactly for a member that passes the status guards without a plan |
| CheckIn.StoredDaysLeftIsRecount | backend/controllers/atttendanceController.js:94-138 | when today is on or after the start date, the stored daysLeft equals the countdown recomputed from the updated table |
| CheckIn.CheckInBeforeStartNotRecounted | backend/controllers/atttendanceController.js:94-130 | a member starting at noon who checks in that afternoon, with the usage limit binding, stores 4 while a recount at the same instant gives 5 |
| CheckIn.SecondCheckInSameDayRejected | backend/controllers/atttendanceController.js:44-52 | after a successful check-in, a second one on the same day is rejected as a duplicate and changes nothing |
| Sweep.SweepStatus | backend/cron/updateUserStatuses.js:50-51 | the sweep only ever produces inactive, expired, or the previous status |
| Sweep.ReconcileMember | backend/cron/updateUserStatuses.js:33-59 | a member without a plan is unchanged; start date, plan, credit and total are never changed |
| Sweep.SweepEntry | backend/cron/updateUserStatuses.js:20-59 | unselected or planless members are unchanged; processed members get daysLeft set to the countdown |
| Sweep.SweepAll | backend/cron/updateUserStatuses.js:16-71 | the sweep keeps the member ids and the attendance table; members not active or expired, and members without a plan, are unchanged |
| Sweep.RunSweep | backend/cron/updateUserStatuses.js:29-66 | updating the members one at a time, in any order, ends in the same store as the whole sweep |
| Sweep.SweepStatusTransitions | backend/cron/updateUserStatuses.js:50-51 | for an active or expired member: inactive iff countdown < -3; expired iff -3 <= countdown < 0 or it was expired; active iff it was active and countdown >= 0; never pending, frozen or dormant |
| Sweep.SweptMember | backend/cron/updateUserStatuses.js:38-59 | a processed member's daysLeft is the countdown even when the status stays, and its status follows the sweep's thresholds |
| Sweep.SweepNeverActivates | backend/cron/updateUserStatuses.js:50-51 | a member active after the sweep was active before it |
| Sweep.SweepIdempotent | backend/cron/updateUserStatuses.js:38-59 | two sweeps at the same instant leave the same store as one |
| Sweep.EntryIdempotent | backend/cron/updateUserStatuses.js:38-59 | updating one member twice at the same instant is the same as once |
| Sweep.SweepIsLocal | backend/cron/updateUserStatuses.js:29-64 | a member's swept entry depends only on its own record and its own attendance records |
| Agreement.ThresholdsDisagree | backend/cron/updateUserStatuses.js:51 | at countdown -3 the check-in deactivates (active or expired) but the sweep leaves the member expired; at 0 the check-in marks an active member expired but the sweep keeps it active |
| Agreement.ThresholdsAgreeElsewhere | backend/cron/updateUserStatuses.js:50-51 | for an active or expired member, at every countdown other than -3 and 0, the status the check-in leaves equals the status the sweep writes |
| Agreement.CheckInDoesNotDisturbOthers | backend/controllers/atttendanceController.js:125-138 | a check-in by one member leaves every other member's swept entry unchanged, at any instant |
| Agreement.ScenarioLapsedMember | backend/controllers/atttendanceController.js:98-114 | 100 days into a 90-day plan with 10 of 50 days used: countdown -10, member deactivated, no record |
| Agreement.ScenarioLastAllowedDay | backend/controllers/atttendanceController.js:98-143 | 30 days into a 90-day plan with 49 of 50 days used: countdown 1, success, stores 0, stays active, plain message |
| Agreement.ScenarioFrozenMember | backend/controllers/atttendanceController.js:62-68 | a frozen member is rejected and nothing is written |
| Agreement.ScenarioDormantMemberSwept | backend/cron/updateUserStatuses.js:20-27 | the sweep does not touch a dormant member |

## Left out

- Storage calls (find, count, create, update) are replaced by an in-memory store value. Storage failures are not modelled.
- Concurrency is not modelled. This includes the race between the duplicate check and the insert, and the parallel per-member updates of the sweep, which is modelled as a sequential map.
- JavaScript date semantics are abstracted. Local-time midnight, `setDate` across daylight-saving changes and month ends, and `new Date()` being read more than once in one request and once per member in the sweep are not modelled. The model uses UTC-style flooring to a day, "add period days" as `+ period * DAY`, and one instant per operation: one check-in, or one whole sweep run.
- The scheduler registration and console logging are not modelled, because they are side effects with no effect on the stored state.
- HTTP status codes and response bodies are reduced to a reply datatype. It carries the rejection reason, the raised error, or the success notice with the stored total and daysLeft. The exact message texts are not modelled, including the inverted wording of the dormant rejection.
- The stored `daysLeft` is always an integer. A member that no check-in or sweep has yet computed holds whatever value the store gave it.
- The exercise controller and its routes are not part of this model.
- Records written by other code at instants that are not midnights are not modelled. The one-record-per-day guarantee is stated for logs whose dates are all midnights, which the check-in keeps so.
- Integer widths are not modelled. The stored counters are database integer columns, and the model uses unbounded integers, because no realistic attendance count or day count comes near the limits.
