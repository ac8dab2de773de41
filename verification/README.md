# A verified model of the QMS core

The modules in this directory model the stateful core of the quality-management system and prove what it is
for, over every input, every run and every interleaving. `dafny verify dfyconfig.toml` checks them all.

| part of the system | modules |
|---|---|
| hash-chained audit log, its concurrent writers, erasure requests | `AuditChain`, `AuditTransactions`, `Gdpr` |
| triggers with a duration gate | `TriggerState`, `Triggers` |
| training: versions, enrolments, exams, declarations, certificates | `TrainingModel`, `Certification` |
| training: issuing links, the scheduler, whole runs | `Issuing`, `Scheduler`, `TrainingRuns` |
| training: reminders, the compliance dashboard, calendar months | `Reminders`, `Compliance`, `Calendar` |
| two-pass trainee import | `TraineeImport`, `ImportOrder` |
| counters: request limiter, account lockout, ticket numbers | `RateLimit`, `Lockout`, `Tickets` |
| decimal printing and string order; small shared types | `Decimal`, `Common` |

How the model is built:

- Code that changes state is a class (`AuditLog`, `ErasureDesk`, `GateStore`, `TriggerEngine`, `TrainingService`,
  `TrainingDesk`, `TraineeTable`, `Limiter`, `TicketDesk`, `User`) whose methods follow the source's loops and
  branches. Each method is proved against a function of the old state, and the promises are lemmas about that
  function over whole runs.
- A table is a sequence in primary-key order. Training and trainee rows use their position as key.
- The hash is an arbitrary function of the seven covered fields. Security statements hand back a concrete
  collision or a preimage of the genesis value; none assumes that there are no collisions.
- Every operation receives the one `now` it works with. Instants are integers: microseconds in the training and
  trigger modules, milliseconds in the limiter. Scores are reals.
- What the database may choose freely (order of equal rows, which of two certificates ending together) is a
  parameter constrained only by the query, and shown not to matter.
- A service call that raises leaves its state unchanged, because the request ends without a commit.

Where a promise does not hold on all inputs, the code is kept as it is, a concrete input shows the failure and the
exact condition is proved:

- The manual form double-issues exactly when the trainee already holds an open link
  (`Issuing.ManualIssueBreaksIff`; input: `Issuing.ManualDoubleIssue`).
- A bulk form double-issues exactly when it repeats an eligible trainee (`Issuing.BulkBreaksIff`;
  `Issuing.BulkDoubleIssue`).
- A second tick at the same instant is silent exactly when no active course with somebody due has links that are
  born expired (`TrainingRuns.SecondTickSilentIff`; `Issuing.ExpiredLinksReissue`). The course form and the course
  import ask for 1 to 90 days (app/blueprints/admin_training.py:152-154, app/services/training_csv.py:463-465), so
  only a direct call of `add_course_version` reaches this.
- An import raises exactly when an accepted row holds a value too long for its column, because the plan checks no
  widths (`TraineeImport.ImportIsSafe`; `TraineeImport.WideRowFails`). It is then rolled back.
- Row order in an import file is irrelevant exactly for the files `ImportOrder.OrderFree` describes: without wide
  rows, rows that repeat each other ask for the same write (`ImportOrder.OrderIsIrrelevantIff`;
  `ImportOrder.OnePhoneTwoNames`, `ImportOrder.WideRepeatMakesOrderMatter`). The import page applies error-free
  plans only (app/blueprints/admin_training.py:1032-1034), so only a direct call of `apply_trainees_plan` reaches
  this; on the page order never matters (`ImportOrder.PageImportsShuffle`).
- With a negative lead, dashboard and scheduler disagree in one case (`Compliance.SchedulerAgreesIff`;
  `Compliance.NegativeLeadDisagrees`).
- Without active courses the blocked-only view shows everybody as cleared (`Compliance.BlockedOnlyHonouredIff`;
  `Compliance.BlockedOnlyShowsCleared`).
- A late three-day reminder can follow the final one exactly for links that live at least four days and were not
  issued at midnight sharp (`Reminders.LateThreeDaysIff`; `Reminders.FinalThenThreeDays`).
- From the 100001st on, tickets of a year cannot be created (`Tickets.KthTicket`; `Tickets.YearFillsUp`).
- Two redactions in a row equal one over both lists exactly when the rows only one way acts on carry the marker
  already (`AuditChain.RedactionsMergeIff`; `AuditChain.MissingLeastIdSplitsPasses`). Both callers pass ids they
  have just queried (app/services/gdpr.py:147-164, 194-205), so only a direct call of the helper reaches that input.
- An audit row written on a tail read before a redaction fits when the redaction had nothing to alter; otherwise it
  breaks the chain, or the hash has a collision that is handed back (`AuditChain.LateAppendFits`;
  `AuditChain.LateAppendBreaks`). Without the lock, two writers fork the chain
  (`AuditTransactions.UnlockedWritersFork`).
- Month arithmetic in two steps agrees with one step exactly under the clamping condition in
  `Calendar.TwoStepsLag` (`Calendar.TwoStepsFallShort`).
- An erasure fails exactly when its mask is another trainee's phone (`Gdpr.ErasureClashesIff`). Where nobody's own
  phone reads like a mask, a first request for a trainee fails exactly when one came before for another trainee whose
  id starts with the same eight characters (`Gdpr.FirstErasureFailsIff`; `Gdpr.SharedPrefixBlocksErasure`).
- A trigger that goes off has seen its condition met for a full duration by the payloads that concerned its gate
  (`Triggers.GoingOffIsEarned`); payloads that arrive while it is switched off do not count, because the timer is
  neither stopped nor cleared (`Triggers.SwitchedOffKeepsTimer`).

Where code and comments differ, the model follows the code: an import row that creates a trainee ignores
`is_active`; `_classify_reminder` itself may answer `final` for a link that expired earlier the same day, but the
query around it only offers live links; the in-flight state covers courses that are not required as well.

## Model

| member | source | states |
|---|---|---|
| AuditChain.TamperEvidence | app/models/audit.py:47-58 | two verifying logs of any lengths with the same last checksum agree on all seven covered fields of every row, or a constructed collision or genesis preimage is returned |
| AuditChain.ForkIsCollision | app/services/audit.py:28-37 | two rows of a verifying log naming the same predecessor yield a constructed collision or genesis preimage |
| AuditChain.AppendKeepsVerdict | app/services/audit.py:57-95 | appending a recorded row changes neither the verdict nor the first bad row |
| AuditChain.RedactionVerdict | app/services/gdpr.py:77-96 | after a redaction the old first break is still reported if it lay before the least id; every other break is healed |
| AuditChain.RedactionsMergeIff | app/services/gdpr.py:58-96 | on a verifying log, redacting S and then T gives the same table, hash columns included, as redacting both at once, if and only if every row only one way acts on already carries the marker; lists that are empty or whose least id is absent act on nothing |
| AuditChain.PresentListsMerge | app/services/gdpr.py:70-75 | the two ways agree whenever both least ids are present |
| AuditChain.MissingLeastIdSplitsPasses | app/services/gdpr.py:70-75 | on a log with ids 1 and 2, redacting [0, 2] then [1] marks row 1 and redacting [0, 2, 1] does not |
| AuditChain.ChainDetermined | app/models/audit.py:47-58 | a verifying chain is determined by its rows apart from the chain columns |
| AuditChain.RedactedExactly | app/services/gdpr.py:58-96 | rows before the least id and all other fields stay, exactly the listed diffs become the marker, the count is the number of listed rows present; an absent least id changes nothing |
| AuditChain.RelinkedIsRewritten | app/services/gdpr.py:80-95 | the forward rehash links every later row to its new predecessor and touches nothing but the listed diffs |
| AuditChain.LateAppendFits | app/services/gdpr.py:70-95 | a row chained to the tail from before a redaction fits when the redaction had nothing to alter; when some row it acts on lacked the marker, the late row is the first break or a constructed collision or genesis preimage is returned |
| AuditChain.LateAppendBreaks | app/services/gdpr.py:70-95 | a concrete log on which the late row is the first break |
| AuditChain.RedactionStaysValid | app/services/gdpr.py:58-96 | redaction keeps ids, their order and the number of rows |
| AuditChain.AuditLog.Record | app/services/audit.py:57-95 | appends one row sealed to the current tail and leaves the others alone |
| AuditChain.AuditLog.VerifyChain | app/services/audit.py:98-112 | succeeds exactly on an intact chain and otherwise returns the id of the first broken row |
| AuditChain.AuditLog.RedactAuditRows | app/services/gdpr.py:58-96 | leaves the table the redaction function computes and returns its count |
| AuditChain.AuditLog.RehashFrom | app/services/gdpr.py:77-96 | the in-place loop equals the recursive relinking and counts the marked rows |
| AuditTransactions.EveryInterleavingVerifies | app/services/audit.py:28-37 | in every interleaving of recording, committing, rolling back and redacting transactions the committed rows form a chain that verifies, in id order |
| AuditTransactions.RunKeepsSerialised | app/services/audit.py:57-95 | over every run only the lock holder has unfinished rows, and they extend the committed chain |
| AuditTransactions.InsertKeepsSerialised | app/services/audit.py:63-95 | a row inserted on the tail read under the lock extends the chain by one |
| AuditTransactions.UnlockedWritersFork | app/services/audit.py:28-37 | without the lock two writers share a predecessor and the chain verifies only if a row hashes to the genesis value |
| AuditTransactions.LatestIsLast | app/services/audit.py:63-70 | the row with the greatest id is the last one of an ordered chain |
| Gdpr.QueryErases | app/services/gdpr.py:58-96 | redacting the queried ids marks every row about the subject, leaves every other entry as it was and keeps a verifying log verifying |
| Gdpr.QueryCounts | app/services/gdpr.py:58-96 | the returned count is the number of rows about the subject |
| Gdpr.ErasureClashesIff | app/services/gdpr.py:143-145 | the unique phone column refuses an erasure exactly when another trainee with the same first eight characters in the id wears the mask, or some other trainee has it as a phone of their own |
| Gdpr.FirstErasureFailsIff | app/services/gdpr.py:143-145 | over any run of requests on phones that do not read like masks, a first request for a trainee is refused if and only if one was made before for another trainee whose id starts with the same eight characters |
| Gdpr.SharedPrefixBlocksErasure | app/services/gdpr.py:143-145 | two UUIDs with one prefix: once the first is erased, the second cannot be |
| Gdpr.ErasureDesk.RedactTrainee | app/services/gdpr.py:99-185 | wipes the trainee and the declarations of their attempts, marks every audit row about trainee, enrolments, attempts, declarations and certificates, appends the redaction entry with both counts; an unknown id, or a mask some other trainee already has as phone, changes nothing |
| Gdpr.ErasureDesk.RedactUser | app/services/gdpr.py:188-224 | marks every audit row by or about the user, keeps the user row, appends the redaction entry |
| Gdpr.ErasureDesk.WipeDeclarations | app/services/gdpr.py:135-142 | nulls the personal columns of exactly the listed attempts' declarations and counts them |
| TriggerState.GateStore.ShouldFireWithDuration | app/services/trigger_state.py:23-54 | one true reading steps the timer of this trigger and scope and no other key |
| TriggerState.GateStore.ResetDurationState | app/services/trigger_state.py:57-62 | a false reading deletes this timer and no other key |
| TriggerState.KeyIdentifies | app/services/trigger_state.py:19-20 | keys coincide exactly for the same trigger and the same scope name; missing, empty and "global" scope are one |
| TriggerState.FireIsEarned | app/services/trigger_state.py:42-54 | a fire is preceded, a full duration earlier, by a reading since which every reading was true and none fired |
| TriggerState.FiresAreSpaced | app/services/trigger_state.py:42-54 | fires of one timer are at least a duration apart |
| TriggerState.SteadyReadingsFire | app/services/trigger_state.py:42-54 | true readings at most max(3d,60)-d apart fire at the first reading past the duration, less than one gap late |
| TriggerState.GapBoundIsTight | app/services/trigger_state.py:42-54 | with a gap one microsecond wider the never-refreshed timer can be lost |
| TriggerState.OthersDoNotMatter | app/services/trigger_state.py:19-20 | a timer behaves as if readings of other triggers and scopes were absent |
| Triggers.TriggerEngine.Evaluate | app/services/triggers.py:119-167 | returns the triggers that go off by the timers before the call, and steps each gated trigger's timer once and nothing else |
| Triggers.TriggerEngine.EvaluateOne | app/services/triggers.py:131-147 | one trigger goes off by its condition or its gate and only its own timer moves |
| Triggers.MissingMetricResets | app/services/triggers.py:59-70 | a payload without the metric resets the timer of every gated trigger of its scope |
| Triggers.RunsAreTraces | app/services/triggers.py:119-167 | over a run of evaluations between which triggers are edited and switched on and off, each trigger's timer is the one its own readings produce |
| Triggers.GoingOffIsEarned | app/services/triggers.py:134-147 | a gated trigger that goes off was preceded, its present duration earlier, by a call of the same scope since which every payload that concerned its gate met the condition of its time and none made it go off |
| Triggers.GoingOffIsSpaced | app/services/triggers.py:134-147 | a trigger goes off for one scope at least the duration of the later time apart, whatever is edited in between |
| Triggers.SteadyConditionGoesOff | app/services/triggers.py:134-147 | a condition met by every payload of a scope, dense enough and for a full duration that is not edited meanwhile, makes the trigger go off at the first call past the duration, less than one gap late |
| Triggers.SwitchedOffKeepsTimer | app/blueprints/admin.py:236-248 | a trigger switched off over a cold payload and on again goes off at the minute although the minute was not warm throughout |
| Calendar.CountMatchesCalendar | app/services/training.py:155-164 | day numbers counted month by month equal the closed Gregorian leap-year formula (Appendix C of RFC 3339) |
| Calendar.AddsExactly | app/services/training.py:155-164 | the result is a valid date exactly m months on, with the day clamped to the month; it fails exactly outside years 1 to 9999 |
| Calendar.MovesBetween | app/services/training.py:155-164 | m months move between 28m and 31m days |
| Calendar.MonotoneInDate | app/services/training.py:155-164 | starting no later never ends later |
| Calendar.StrictInMonths | app/services/training.py:155-164 | more months end strictly later |
| Calendar.TwoStepsLag | app/services/training.py:155-164 | two steps never overtake one, with equality exactly under the clamping condition and always up to day 28 |
| Calendar.TwoStepsFallShort | app/services/training.py:155-164 | 31 January plus one plus one month is 28 March, plus two it is 31 March |
| Calendar.OrderOfDays | app/services/training.py:155-164 | day numbers order dates and identify them |
| TrainingModel.ActiveIsActive | app/models/training.py:129-138 | the active version is the active one with the greatest number, and is missing exactly when none is active |
| TrainingModel.LatestBounds | app/services/training.py:646-660 | the latest end is attained by an unrevoked certificate and bounds them all |
| TrainingModel.TiesAreHarmless | app/services/training.py:646-660 | whichever certificate the query returns among ties, its end is the same |
| Certification.TrainingService.StartAttempt | app/services/training.py:490-507 | returns the existing attempt, or creates one and marks the enrolment started |
| Certification.TrainingService.SubmitAttempt | app/services/training.py:510-574 | freezes the graded snapshot and marks the enrolment submitted, or changes nothing on an error |
| Certification.TrainingService.Score | app/services/training.py:530-556 | the loop's snapshot and count are the marks of all questions |
| Certification.TrainingService.RecordDeclaration | app/services/training.py:577-640 | records the declaration and, for a passed attempt, the certificate; every refusal changes nothing |
| Certification.TrainingService.AddCourseVersion | app/services/training.py:238-284 | the new version becomes the one new enrolments are pinned to; earlier content is untouched |
| Certification.NewestIsActive | app/services/training.py:238-284 | after deactivating a course's versions the appended one is its active version |
| Certification.FullMarksIff | app/services/training.py:530-559 | the score lies in 0..1 and is 1 exactly when every question has a correct option and exactly those were selected |
| Certification.GradeIsHonest | app/services/training.py:530-570 | score is right answers over questions, passed means reaching the pinned threshold |
| Certification.NextSound | app/services/training.py:490-640 | every service call keeps the certification invariant and undoes no result |
| Certification.RunSound | app/services/training.py:490-640 | in every reachable state certificates exist exactly for passed and declared attempts, nothing is duplicated, scores are honest, SUBMITTED and results are permanent |
| Certification.SubmitSound | app/services/training.py:510-574 | submitting keeps the invariant and loses nothing |
| Certification.DeclareSound | app/services/training.py:577-640 | declaring keeps the invariant and loses nothing |
| Certification.StartSound | app/services/training.py:490-507 | starting keeps the invariant and never reopens a submitted enrolment |
| Certification.SaveVersionSound | app/services/training.py:238-284 | saving a version leaves every graded result judged against its own frozen version |
| Certification.CertificateLasts | app/services/training.py:610-625 | a certificate for m months is issued for this attempt and lasts between 28m and 31m days |
| Certification.StoredCertificatesLast | app/services/training.py:613-627 | every stored certificate ends the pinned version's months after it began, hence 28m to 31m days later |
| Issuing.LinksKeepIff | app/services/training.py:287-321 | issuing a list of links keeps at most one open per trainee and course if and only if they are born expired or nobody is named twice or already open |
| Issuing.ManualIssueBreaksIff | app/blueprints/admin_training.py:507-509 | the unguarded manual form leaves two open links exactly when live links are issued to a trainee holding an open one |
| Issuing.ManualDoubleIssue | app/blueprints/admin_training.py:507-509 | a concrete double issue by the manual form |
| Issuing.EveryMentionIssues | app/services/training.py:990-1021 | a trainee named m times on a bulk form gets m links or none |
| Issuing.BulkBreaksIff | app/services/training.py:962-1058 | planning and applying leaves two open links exactly when live links are issued and an eligible trainee is repeated |
| Issuing.BulkDoubleIssue | app/services/training.py:990-1021 | a concrete double issue by a repeated id |
| Issuing.FireAmongExact | app/services/triggers.py:310-330 | a fire issues to exactly the audience members without an open link, each once |
| Issuing.FireKeepsOneOpen | app/services/triggers.py:310-330 | a fire keeps at most one open link per trainee and course |
| Issuing.DueAmongExact | app/services/training.py:708-726 | the due list names exactly the active, assigned, due trainees, each once |
| Issuing.LaterCoursesUnmoved | app/workers/training_scheduler.py:57-84 | issuing for earlier courses changes nobody's standing for later ones |
| Issuing.TickKeepsOneOpen | app/workers/training_scheduler.py:57-84 | a tick keeps at most one open link per trainee and course |
| Issuing.TickIssuesOnlyDue | app/workers/training_scheduler.py:57-84 | every link of a tick goes to somebody due before the tick |
| Issuing.StillDueList | app/workers/training_scheduler.py:57-84 | after a tick a course's due list is empty, or unchanged when it issues no live links |
| Issuing.SecondTickIssuesIff | app/workers/training_scheduler.py:57-84 | a second issuing phase at the same instant issues nothing if and only if no active course with somebody due has links born expired |
| Issuing.ExpiredLinksReissue | app/services/training.py:306-307 | a course whose links live for no days has them issued again by the next tick |
| Issuing.TimeKeepsOneOpen | app/services/training.py:663-686 | the passing of time never makes a second open link |
| Scheduler.TrainingDesk.EnrolTrainee | app/services/training.py:287-321 | appends one enrolment pinned to the active version, or fails without one |
| Scheduler.TrainingDesk.TraineesDueForCourse | app/services/training.py:708-726 | the nested loops with their seen-set return the due list |
| Scheduler.TrainingDesk.IssueCourse | app/workers/training_scheduler.py:59-84 | enrolling one by one, with rollback on errors, equals issuing the whole due list, and the rollback discards nothing |
| Scheduler.TrainingDesk.IssueDueLinks | app/workers/training_scheduler.py:57-84 | going course by course equals issuing every due list taken before the tick |
| Scheduler.TrainingDesk.SendPendingReminders | app/services/training.py:1193-1294 | every live enrolment is decided once, marked, and counted by kind |
| Scheduler.TrainingDesk.Remind | app/services/training.py:1214-1291 | one enrolment is marked and counted by what it is due |
| Scheduler.TrainingDesk.RunOnce | app/workers/training_scheduler.py:43-103 | a tick is the issuing phase followed by the reminder phase |
| Scheduler.TrainingDesk.FireTrainingLink | app/services/triggers.py:294-331 | checking has-open trainee by trainee equals issuing to the whole fire list; without an active version it fails and issues nothing |
| Scheduler.TrainingDesk.PlanBulkIssue | app/services/training.py:962-1022 | classifies every requested id: no version, not found, in flight, issue |
| Scheduler.TrainingDesk.ApplyBulkIssue | app/services/training.py:1025-1058 | issues one link per issue row; issued, skipped and errors add up to the rows |
| Scheduler.OneMoreLink | app/services/training.py:1041-1056 | enrolling the next trainee extends the issued list by exactly their link |
| Scheduler.FireSeesNoChange | app/services/triggers.py:320-330 | what a fire has issued so far opens nothing for trainees still to come |
| TrainingRuns.DoKeepsIff | app/services/training.py:663-686 | any action in a good state keeps certificates sound, and keeps at most one open link if and only if it is neither a repeating bulk form nor a manual issue over an open link |
| TrainingRuns.GuardedRunsKeepOneOpen | app/workers/training_scheduler.py:57-84 | every run of ticks, fires, distinct bulk issues, exams, declarations and clock advances keeps at most one open link per trainee and course and every certificate warranted |
| TrainingRuns.ReachableStatesAreGood | app/services/training.py:490-640 | from any database with nothing issued yet, every state such runs reach is good |
| TrainingRuns.CallOpensNothing | app/services/training.py:490-640 | starting, submitting, declaring and saving versions open no enrolment |
| TrainingRuns.SecondTickSilentIff | app/workers/training_scheduler.py:43-103 | a second whole tick at the same instant, reminder passes included, issues nothing if and only if no active course with somebody due has links born expired |
| TrainingRuns.DoIsEvents | app/services/training.py:490-574 | any action is, for each enrolment, exactly its listed events: passes, start, submission |
| TrainingRuns.RunIsLife | app/services/training.py:1193-1294 | over every guarded run an enrolment ends as its life under the run's events |
| TrainingRuns.RunRemindsOnce | app/services/training.py:1126-1294 | in every guarded run an enrolment is sent each kind at most once, on time, and its columns record exactly those |
| TrainingRuns.RemindSound | app/services/training.py:1193-1294 | the reminder pass changes nothing the invariants look at |
| Reminders.EachKindAtMostOnce | app/services/training.py:1126-1190 | over any life of an enrolment each kind of reminder goes out at most once |
| Reminders.RemindersAreOnTime | app/services/training.py:1159-1179 | reminders go out before expiry: final on the expiry date, seven-day before that date, delayed ones not early |
| Reminders.ColumnsRecordOutbox | app/services/training.py:1182-1190 | the sent-at columns are exactly the record of what went out |
| Reminders.SilentOnceSubmitted | app/services/training.py:1142-1146 | nothing goes out once the exam is submitted |
| Reminders.FirstPassOnExpiryDateIsFinal | app/services/training.py:1159-1161 | the first pass on the expiry date before expiry sends final to an active trainee whose enrolment is open |
| Reminders.AfterFinalOnlyThreeDays | app/services/training.py:1159-1178 | after the final reminder only a late three-day one can follow, and exactly under the stated condition |
| Reminders.LateThreeDaysIff | app/services/training.py:1159-1178 | a link as the engine issues it can get the three-day reminder after the final one if and only if it lives at least four days and was not issued at midnight sharp |
| Reminders.FinalThenThreeDays | app/services/training.py:1159-1178 | a seven-day link issued at noon and first passed just after midnight of its last day gets the final reminder and then the three-day one |
| Compliance.BuildComplianceMatrix | app/services/training.py:732-924 | the bulk matrix is the naive picture: every cell, certificate, clearance and headline figure as if asked for on its own, blocked-only filter and empty grid included |
| Compliance.LatestCerts | app/services/training.py:817-831 | last-wins over ascending rows keeps a latest certificate for every pair |
| Compliance.ResolveCells | app/services/training.py:870-881 | the nested loops resolve every pair of the grid from the loaded facts |
| Compliance.RequiredFlags | app/services/training.py:859-866 | required exactly where some assignment matches |
| Compliance.ClearedFlags | app/services/training.py:884-888 | a trainee is cleared exactly when no cell is OVERDUE |
| Compliance.KeepBlocked | app/services/training.py:893-898 | the filter keeps exactly the uncleared trainees, in order, in every part of the view |
| Compliance.CellFromRows | app/services/training.py:106-139 | a cell from bulk rows equals the cell from one query each, whatever ties the database broke |
| Compliance.OrderAndTiesAreHarmless | app/services/training.py:817-924 | two answers to the same queries give the same states, clearances and figures |
| Compliance.BlockedOnlyKpis | app/services/training.py:893-911 | on a non-empty grid blocked_only keeps blocked and overdue_courses and never raises due_soon or in_flight |
| Compliance.BlockedOnlyHonouredIff | app/services/training.py:807-815 | the blocked-only view shows only blocked trainees except when no course is active |
| Compliance.SchedulerAgreesIff | app/services/training.py:126-139 | OVERDUE or DUE_SOON coincides with being due, save for the gap a negative lead opens |
| Compliance.MatrixAgreesWithScheduler | app/services/training.py:689-726 | with a lead of zero or more days every matrix cell agrees with the due list, which names each trainee once |
| Compliance.NegativeLeadDisagrees | app/services/training.py:126-139 | in a database that keeps the certification invariant, a lead of minus one day and a certificate that ends just now: OVERDUE on the board, not due |
| Compliance.BlockedOnlyShowsCleared | app/services/training.py:807-815 | one trainee and no course: the blocked-only view shows them as cleared |
| Compliance.TickClearsTheBoard | app/workers/training_scheduler.py:57-84 | a tick turns OVERDUE and DUE_SOON cells of a course with live links into IN_FLIGHT and no other cell |
| Compliance.CellsOnlyDecay | app/services/training.py:106-139 | with nothing open, time moves a cell forward through its stages only |
| TraineeImport.TraineeTable.PlanTraineesImport | app/services/training_csv.py:154-285 | the planning loop with its seen-maps equals judging every row against the old table and the earlier rows |
| TraineeImport.NoteValue | app/services/training_csv.py:207-224 | a repeated value is reported with the line that first held it |
| TraineeImport.TraineeTable.CreateTrainee | app/services/training.py:170-216 | creates a trainee or refuses a missing field, a taken phone, an unknown channel, a taken employee number or, at the flush, a value too long for its column |
| TraineeImport.TraineeTable.ApplyTraineesPlan | app/services/training_csv.py:288-331 | applies every error-free row in turn; an exception is handed on and leaves the table as it was |
| TraineeImport.PlansAreSafe | app/services/training_csv.py:172-285 | accepted rows clash neither with one another nor with the table the plan was computed from |
| TraineeImport.ImportIsSafe | app/services/training_csv.py:288-331 | for any rows and any unique table the import raises if and only if an accepted row is too long for its column, and for no other reason; up to there, after every single row, phones and employee numbers are unique, every row is counted once, every record is an old one or written by an accepted row |
| TraineeImport.WideRowFails | app/models/training.py:80-98 | a clean row with the language "polish" is planned as a creation and fails when applied |
| TraineeImport.SoundIsOutcome | app/services/training_csv.py:288-331 | the final table is told by the accepted rows alone |
| ImportOrder.OrderIsIrrelevantIff | app/services/training_csv.py:172-331 | all orders of a file lead to the same database, rollbacks included, if and only if rows repeating each other ask for the same write or, with rows too long for a column, nothing is ever written or some wide row is always stored first |
| ImportOrder.AcceptedIff | app/services/training_csv.py:205-260 | a row is accepted exactly when it is clean, fits the table and repeats no earlier row |
| ImportOrder.SameDatabaseIff | app/services/training_csv.py:288-331 | two files end in the same database exactly when they do the same writes, an import that raises doing none |
| ImportOrder.DisagreementShows | app/services/training_csv.py:207-224 | in a file without wide rows, disagreeing repeats yield two orders with different databases |
| ImportOrder.OnePhoneTwoNames | app/services/training_csv.py:207-224 | two lines with one phone and two names end in different databases in their two orders |
| ImportOrder.WideRepeatMakesOrderMatter | app/services/training_csv.py:207-224 | a fitting line and a too wide one with the same phone end in different databases in their two orders |
| ImportOrder.FailsIffUnfit | app/services/training_csv.py:288-331 | the import raises exactly when an accepted row is too wide for its columns |
| ImportOrder.DoomedFails | app/services/training_csv.py:207-224 | a group of wide rows that no row outside it repeats makes every order of the file raise |
| ImportOrder.NoRepeatsOrderFree | app/services/training_csv.py:207-224 | a file without repeats may be shuffled freely |
| ImportOrder.ImportableReorders | app/blueprints/admin_training.py:1032-1034 | whether the page accepts a file does not depend on the order of its lines |
| ImportOrder.PageImportsShuffle | app/blueprints/admin_training.py:1032-1034 | every reordering of a file the page accepts is accepted and leads to the same database |
| RateLimit.Limiter.Check | app/services/ratelimit.py:71-85 | counts in the key of this bucket, client and window only; retry_after is in 1..window and ends exactly at the next window |
| RateLimit.KeyIdentifies | app/services/ratelimit.py:75-75 | keys coincide exactly for the same bucket, client and window |
| RateLimit.CounterCounts | app/services/ratelimit.py:76-81 | the stored counter is the number of requests in its window and never expires inside it |
| RateLimit.ServedIsTrace | app/services/ratelimit.py:71-85 | the counters stored by a run of checks are those the trace computes |
| RateLimit.CheckAllowsIff | app/services/ratelimit.py:82-82 | a check allows a request exactly where the trace does |
| RateLimit.AllowedIffWithinBudget | app/services/ratelimit.py:82-83 | exactly the first max requests of a client in a window are allowed |
| RateLimit.SlidingBound | app/services/ratelimit.py:71-85 | any stretch of k windows allows at most (k+1)*max requests of a client |
| RateLimit.BoundIsTight | app/services/ratelimit.py:71-85 | twice the maximum within one window length does happen |
| Lockout.Authenticate | app/auth.py:32-71 | one attempt moves the account columns as the state machine says; a refused attempt never checks the password |
| Lockout.GuessingIsBounded | app/auth.py:47-71 | a stretch of k lockout lengths without a login holds at most k budgets of wrong-password checks |
| Lockout.UnlockedMeansBelowThreshold | app/auth.py:44-53 | no lock timestamp means fewer failures than the threshold, in every reachable state |
| Lockout.LockHolds | app/models/auth.py:111-121 | a lock refuses every attempt for the whole lockout |
| Lockout.BudgetIsTight | app/auth.py:47-53 | a full budget of wrong guesses in a row is really checked |
| Tickets.TicketDesk.CreateTicket | app/services/tickets.py:45-93 | refuses unknown and inactive lines and, by the unique column, a number already stored; otherwise stores the next number |
| Tickets.TicketDesk.GenerateTicketNumber | app/services/tickets.py:31-42 | the next number follows the greatest stored string of the year |
| Tickets.SequenceOrder | app/services/tickets.py:31-42 | string order agrees with numeric order up to 99999 |
| Tickets.KthTicket | app/services/tickets.py:31-42 | in any run an attempt is stored if and only if fewer than 100000 tickets of its year are stored, the k-th as sequence k; from then on every attempt of that year fails and other years go on |
| Tickets.RunHolds | app/services/tickets.py:31-42 | after any run each year holds exactly its first sequences, in order |
| Tickets.NumbersAreDistinct | app/models/tickets.py:91-91 | no two stored tickets share a number |
| Tickets.YearFillsUp | app/services/tickets.py:31-42 | the 100001st ticket of 2026 cannot be created while the first of 2027 can |
| Decimal.ParsePadded | app/services/tickets.py:40-42 | parsing undoes zero-padded printing |
| Decimal.OrdersAgree | app/services/tickets.py:34-40 | numbers of one printed width compare as their strings do |

## Left out

- Triggers.TriggerEngine.Evaluate: returns the triggers that go off; firing their responders, except the training link, and the execution rows are not modelled.
- AuditTransactions.EveryInterleavingVerifies: redaction is one exclusive step; the code rehashes before it first takes the chain lock, and what becomes of a racing writer's row is AuditChain.LateAppendFits.
- AuditChain.AuditLog.Record: inserting and then filling the checksum is one append, and the database trigger that forbids updates of audit rows is not modelled.
- Gdpr.ErasureDesk.RedactTrainee: reaches the rows of enrolments that still exist; rows of enrolments already deleted by the retention sweep are not found by the source either.
- Certification.TrainingService.RecordDeclaration: the typed name arrives stripped, so a name of blanks is the empty one it refuses; signature image, address and declaration text are stored unread.
- Compliance.BuildComplianceMatrix: names and codes that only sort rows are not stored; row order is whatever the queries return.
- Certification.RunSound: certificates are not revoked and enrolments not deleted during a run, and questions of a version are frozen although the authoring page can edit those of the active version.
- TrainingRuns.GuardedRunsKeepOneOpen: requests are atomic, so two requests planning at the same time are not modelled.
- Scheduler.TrainingDesk.PlanBulkIssue: the note with the expiry of the existing link is display text and left out.
- Scheduler.TrainingDesk.SendPendingReminders: the message texts and the queueing of SMS and mail are opaque; queue failures do not change the marks, in the source as in the model.
- TraineeImport.TraineeTable.PlanTraineesImport: cells arrive parsed and stripped, lower-casing covers ASCII, cells hold no NUL characters (the driver refuses them), and the before/after preview and the error row for a file that cannot be decoded are left out.
- RateLimit.SlidingBound: the store is up; the fail-open answer during an outage is left out.
- TriggerState.SteadyReadingsFire: one monotone clock, atomic get and set; two workers evaluating one trigger at once are left out.
- Lockout.Authenticate: finding the user by email and the password hash itself are parameters.
- Tickets.TicketDesk.CreateTicket: status, pipeline and events of a ticket are left out; a refused number shows as an error value where the database raises an integrity error.
- SHA-256, HMAC tokens, encryption and one-time passwords are not modelled; serialisation of the hashed fields is taken as injective because the hash takes the fields themselves.
- Floating-point rounding of scores and of the stored first-true instant is not modelled.
- Trigger payloads hold numbers, text and null; booleans and a scope that is not text are left out.
- Web forms, templates, PDF output, HACCP limits, SALSA checklists, reports, permissions, seeds and migrations are single-branch or static and left out.
