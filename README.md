# Soul Planner lifecycle engine, modelled in Dafny

Soul Planner is a browser task tracker in which tasks decay unless they are
looked after. An `active` task that nobody touches for 24 hours drops into
`purgatory`. At 48 hours since its last touch it is `dead` and costs 5 points.
The user can touch a task (back to active, clock restarted), complete it
(+10), kill it (-5) or resurrect a dead one (-2). A task's heat is 1 just
after a touch and falls linearly to 0 at 48 hours. The sweep gives an active
task a cold warning once its heat is at most 0.25, or else a cool warning once
it is at most 0.5. Each warning is remembered in a warned set so that it is
given only once.

Heat 0.5 is reached at 24 hours, the same moment the task drops into
purgatory, and the sweep never warns a task in purgatory. So in the model a
warning is only ever given in the visit that moves the task into purgatory:
cold if 36 hours or more have passed by then and the cold flag is not set yet,
otherwise cool if the cool flag is not set yet. Because a kill and a
resurrection keep the flags, a flag left from an earlier stay changes which
warning, if any, the next stay gets: a task resurrected with the cold flag is
given the cool warning on its next entry even at 36 hours or more, and one
resurrected with the cool flag gets no warning on an entry before 36 hours. A task the sweep
leaves active never gains a flag, and a cold warning never follows a cool one
for the same stay. `Lifecycle.WarnOnlyOnEntry` proves this.

This project models the engine of `app.js`: the sweep `checkLifecycle`, the
five user actions, the score, the warned set, the heat function with its
label and emoji bands, and the two time texts `timeAgo` and `timeLeft`.

Layout, one module per file:

- `config.dfy` (`Config`): the constants of `CONFIG`.
- `tasks.dfy` (`Tasks`): the task record, the statuses, the warned set, the engine state and the lookup by id.
- `jstext.dfy` (`JsText`): JavaScript `trim` and the decimal writing of integers, with its read-back.
- `heat.dfy` (`Heat`): `getHeatLevel`, `getHeatLabel`, `getHeatEmoji`.
- `timetext.dfy` (`TimeText`): `timeAgo`, `timeLeft`.
- `lifecycle.dfy` (`Lifecycle`): the sweep as functions of the task list, with its lemmas.
- `actions.dfy` (`Actions`): the user actions as functions of the engine's state, with their lemmas.
- `engine.dfy` (`Engine`): the class `LifecycleEngine`. It holds the mutable task list, score and warned set. Its methods change them in place. Each method is proved to leave exactly the state that the function of the same action gives. `VisitAll` is the sweep's loop, proved step by step against the part-way state `Lifecycle.SweepUpTo`, and `CheckLifecycle` turns its flags into the notice.
- `trace.dfy` (`Trace`): histories of actions. It covers score accounting, record consistency under a clock that does not run backwards, and three worked scenarios (decay and resurrection, completion, a touch that restarts the clock).

The clock reading (`Date.now()`) is a `now` parameter of every operation (two places where the code reads it twice are listed under "Left out").
The new id from `generateId` is a parameter of `AddTask`, and it must not be
in the list yet. The warned set `warnedTasks` holds strings `<id>_cool` and
`<id>_cold`. Here it holds pairs `(id, Cool)` and `(id, Cold)`. This is the
same thing: `_cool` and `_cold` differ in their last letters, and removing
the five-character suffix gives back the id, so no two pairs share a string. Heat is a Dafny `real`.

Behaviour of the code that is easy to misread:

- Resurrection and kill leave the warned flags alone. Only a touch and a natural death clear them.
- `touchTask`, `completeTask` and `killTask` do not look at the status. A touch brings even a completed task back to `active`. The page only offers these buttons on active and purgatory cards.
- "A dead task has a death stamp no earlier than its creation" holds only while the clock does not run backwards. `Trace.StepKeepsWellFormed` proves it under that assumption.

## Model

| member | source | states |
|---|---|---|
| `Tasks.NewTask` | app.js:509-515 | a new record carries the given id and title, is active, has creation and last-touch stamps equal to now, and has no other stamp and no death count |
| `Tasks.DeathCount` | app.js:314 | the stored death count, or 0 when there is none (`deathCount` or 0) |
| `Tasks.FindIndexUnique` | app.js:528 | with unique ids, `tasks.find` by an id that some task has returns exactly that task's index |
| `Tasks.FindIndex` | app.js:528 | `tasks.find` by id: no index exactly when no task has the id; otherwise the index of the first task with that id |
| `JsText.TrimStart` | app.js:505 | the result is the suffix of the input after a run of JavaScript whitespace, and it does not start with whitespace |
| `JsText.TrimEnd` | app.js:505 | the result is the prefix of the input before a run of JavaScript whitespace, and it does not end with whitespace |
| `JsText.IsWhitespace` | app.js:505 | the characters `trim()` removes: ECMAScript WhiteSpace and LineTerminator |
| `JsText.Trim` | app.js:505 | `trim()` leaves the contiguous piece of the input that starts where the leading whitespace ends |
| `JsText.TrimTail` | app.js:505 | everything after what `trim()` leaves is whitespace; with `Trim`, `TrimStart` and `TrimEnds` the result is exactly the input minus its leading and trailing whitespace |
| `JsText.TrimEnds` | app.js:505 | what `trim()` leaves neither starts nor ends with whitespace |
| `JsText.TrimEmptyIff` | app.js:505-506 | a title is rejected (`!title` after trimming) exactly when it is all whitespace |
| `JsText.TrimIdempotent` | app.js:505 | trimming twice gives the same as trimming once |
| `JsText.NatToDecimal` | app.js:158 | a non-negative number is written as at least one decimal digit, with no leading zero |
| `JsText.DecimalRoundTrip` | app.js:158 | the digits written for a number read back as that number |
| `JsText.IntToString` | app.js:158 | an integer is written with a leading minus exactly when negative, followed by digits |
| `JsText.IntToStringNoLeadingZero` | app.js:158 | the digits of an integer's text have no leading zero |
| `JsText.IntToStringRoundTrip` | app.js:158 | the text written for any integer reads back as that integer |
| `Heat.HeatLevel` | app.js:249-255 | heat lies in [0, 1]; it is 1 for no elapsed time and 0 from 48 hours on; in between, heat × 48h = 48h − elapsed |
| `Heat.HeatNonIncreasing` | app.js:249-255 | heat never rises as the time since the last touch grows |
| `Heat.HeatThresholds` | app.js:294-298 | heat > 0.75 iff under 12h elapsed; heat ≤ 0.5 iff at least 24h; heat ≤ 0.25 iff at least 36h |
| `Heat.HeatLabel` | app.js:264-269 | the label is one of Hot, Warm, Cold, Freezing |
| `Heat.HeatEmoji` | app.js:257-262 | the emoji is one of the four band emojis |
| `Heat.HeatBandsByElapsed` | app.js:257-269 | label and emoji pick the band by elapsed time: under 12h, under 24h, under 36h, or later |
| `TimeText.AgoReading` | app.js:156-165 | `timeAgo` picks seconds below a minute, minutes below an hour, hours below a day, else days; the count n satisfies n·unit ≤ ms < (n+1)·unit |
| `TimeText.LeftReading` | app.js:167-175 | `timeLeft` gives "now" iff ms ≤ 0, then seconds, then minutes; from an hour on it gives hours ≥ 1 plus minutes < 60, with (60h+m)·1min ≤ ms < (60h+m+1)·1min |
| `TimeText.Render` | app.js:158-174 | a reading written as the templates write it: "Now!", a number and its unit letter, or "<h>h <m>m"; read back by the lemmas below |
| `TimeText.TimeAgo` | app.js:156-165 | `timeAgo` is the rendering of `AgoReading` followed by " ago"; `TimeAgoReadsBack` reads it back |
| `TimeText.TimeLeft` | app.js:167-175 | `timeLeft` is the rendering of `LeftReading`; `TimeLeftNowIff` and `TimeLeftHoursReadsBack` read it back |
| `TimeText.RenderSingleReadsBack` | app.js:158-164 | a one-number text ends in its unit letter, and the number before it reads back as the count |
| `TimeText.TimeAgoReadsBack` | app.js:156-165 | `timeAgo` ends in " ago" after the unit letter, and its number reads back as the whole count of that unit |
| `TimeText.TimeLeftNowIff` | app.js:167-175 | `timeLeft` is "Now!" exactly when ms ≤ 0; below an hour its number reads back as the count |
| `TimeText.TimeLeftHoursReadsBack` | app.js:173-174 | from an hour on `timeLeft` is digits that read back as the whole hours, then "h ", then text that reads back as the leftover minutes, then "m" |
| `TimeText.AgoAndLeftAgree` | app.js:156-175 | for a positive time under an hour both texts pick the same reading |
| `Lifecycle.EntersPurgatory` | app.js:304 | a task enters purgatory in a visit when it is active and 24h or more have passed since its last touch |
| `Lifecycle.Dies` | app.js:304-311 | a task dies in a visit when it is active or in purgatory and 48h or more have passed (an active one passes through purgatory first) |
| `Lifecycle.Advance` | app.js:304-321 | one task in a sweep: unchanged unless it enters purgatory or dies; entering purgatory stamps now; dying stamps now and adds exactly one to the death count (a missing count counts as 0); id, title and other stamps are kept |
| `Lifecycle.StepWarned` | app.js:293-320 | the warned set after one visit: cold if heat ≤ 0.25 and not yet flagged, else cool if heat ≤ 0.5 and not yet flagged, only for active tasks; both removed if the task dies (app.js:319-320); characterised by `StepWarnedSpec` |
| `Lifecycle.StepWarnedSpec` | app.js:293-320 | one visit touches only that task's flags and adds at most one; a dying task loses both; an active task under 48h gains cold at 36h or later, otherwise cool at 24h or later (the visit that moves it into purgatory), each only if not yet present |
| `Lifecycle.StepWarnedAtMostOne` | app.js:293-320 | a visit adds at most one flag, and only a flag of the visited task |
| `Lifecycle.StepWarnedActive` | app.js:293-301 | for an active task under 48h, a visit removes nothing, adds cold exactly when 36h have passed, and adds cool exactly when 24h have passed and cold was not just added |
| `Lifecycle.WarnOnlyOnEntry` | app.js:293-309 | a visit adds no flag unless it moves the task into purgatory, and adds none to a task it leaves active |
| `Lifecycle.StepWarnedOther` | app.js:293-320 | a visit leaves the flags of every other id unchanged |
| `Lifecycle.StepWarnedLocal` | app.js:293-320 | the flags a visit leaves on its task depend only on that task's previous flags |
| `Lifecycle.SweepTasks` | app.js:286-322 | the list after a sweep has the same length, and each task is its own `Advance` |
| `Lifecycle.SweepWarned` | app.js:286-322 | the warned set after visiting the tasks in list order, each visit applying `StepWarned`; characterised per task by `SweepWarnedAt` and `SweepWarnings` |
| `Lifecycle.Sweep` | app.js:286-322 | the whole effect of a sweep: the advanced task list (same length), −5 per death, and the warned set after every visit; `CheckLifecycle` is proved to leave exactly this |
| `Lifecycle.Visit` | app.js:287-321 | one pass of the loop on the engine state: the task at that position advances, a death costs 5 points, and the warned set takes the visit |
| `Lifecycle.Deaths` | app.js:311-317 | a sweep kills at most as many tasks as there are |
| `Lifecycle.Entered` | app.js:304-309 | a sweep moves at most as many tasks into purgatory as there are |
| `Lifecycle.DeathsAreDyingPositions` | app.js:311-317 | the sweep's death count is exactly the number of list positions whose task dies in the visit |
| `Lifecycle.EnteredAreEnteringPositions` | app.js:304-309 | the sweep's purgatory count is exactly the number of list positions whose task enters purgatory in the visit |
| `Lifecycle.SweepUpToClosed` | app.js:286-322 | part-way through the loop, after i visits, the first i tasks have advanced and the rest are untouched; the score has paid for each death so far; the warned set has taken the first i visits |
| `Lifecycle.SweepTasksStep` | app.js:286-322 | the next visit sees the original task, and advancing it extends the visited prefix by one |
| `Lifecycle.SweepUpToUnvisited` | app.js:286-290 | the task a visit sees is still the original one |
| `Lifecycle.SweepUpToComplete` | app.js:286-322 | visiting every task in list order gives exactly the whole sweep |
| `Lifecycle.NoticeOf` | app.js:329-336 | the sweep's one notice: the death notice if any task died, else the purgatory notice if any entered, else none |
| `Lifecycle.Changed` | app.js:324 | the sweep asks for a save and redraw when some task died or entered purgatory; `ChangedIff` ties this to the list changing |
| `Lifecycle.DeathsPositiveIff` | app.js:329-331 | the death notice is due exactly when some task dies |
| `Lifecycle.EnteredPositiveIff` | app.js:331-336 | the purgatory notice is due exactly when some task enters purgatory |
| `Lifecycle.SweepTransitions` | app.js:286-321 | completed and dead tasks are untouched; active under 24h and purgatory under 48h are untouched; active at 24h–48h becomes purgatory stamped now; active or purgatory at 48h+ becomes dead stamped now with one more death |
| `Lifecycle.SweepScore` | app.js:311-317 | a sweep changes the score by −5 per death and nothing else, so it never raises it and keeps it exactly when nothing dies |
| `Lifecycle.SweepKeepsIds` | app.js:286-322 | a sweep keeps ids unique |
| `Lifecycle.ChangedIff` | app.js:324-327 | the sweep asks for a save and redraw exactly when the task list changed |
| `Lifecycle.SweepWarnedFrame` | app.js:286-322 | a sweep leaves the flags of ids not in the list as they were |
| `Lifecycle.SweepWarnedAt` | app.js:286-322 | with unique ids, a task's flags after the whole sweep are those of its own visit |
| `Lifecycle.SweepWarnings` | app.js:293-320 | per sweep a task gains at most one new flag; a task that dies holds neither flag; an active task under 48h gains cold at 36h or later, otherwise cool at 24h or later, in the sweep that moves it into purgatory |
| `Actions.AddTask` | app.js:504-517 | an all-whitespace title changes nothing; otherwise exactly one task is appended with the trimmed title, active, stamped now; earlier tasks, score and warned set are untouched |
| `Actions.Touch` | app.js:527-537 | unknown id: no change; otherwise the found task is active with its last touch at now, whatever its status; both its flags are removed; the score is unchanged |
| `Actions.Complete` | app.js:558-561 | unknown id: no change; otherwise the found task is completed and stamped now, whatever its status; score +10 |
| `Actions.Killed` | app.js:581-582 | a killed record is dead and stamped now; every other field, death count included, is the record's own |
| `Actions.Kill` | app.js:572-583 | unknown id: no change; otherwise the found task is killed; score −5; the warned set is unchanged |
| `Actions.Resurrect` | app.js:591-598 | only a dead task found by id changes: active, last touch and resurrection at now, score −2; anything else is a no-op |
| `Actions.TouchRefreshes` | app.js:527-537 | after a touch the task is active at heat 1 with no flags, and no sweep in the next 24 hours moves it |
| `Actions.TouchIdempotent` | app.js:527-537 | touching twice at the same moment equals touching once |
| `Actions.ResurrectOnce` | app.js:593 | a second resurrection in a row is a no-op, with no second penalty |
| `Actions.CompletedIsFinal` | app.js:287 | a completed task is never changed by a later sweep |
| `Actions.KillVersusNaturalDeath` | app.js:311-317 | natural death adds one to the death count and a kill does not; both mark the task dead, stamped now |
| `Actions.ActionsKeepIds` | app.js:509-517 | every action keeps ids unique, provided the id for a new task is fresh |
| `Engine.LifecycleEngine.constructor` | app.js:112-116 | a fresh engine has no tasks, score 0 and an empty warned set |
| `Engine.LifecycleEngine.UpdateScore` | app.js:224-225 | the score moves by exactly the delta |
| `Engine.LifecycleEngine.VisitTask` | app.js:287-321 | one loop pass leaves the state `Visit` gives: the record `Advance` gives, the warned set `StepWarned` gives, and −5 on the score exactly when the task dies; it reports entry into purgatory and death |
| `Engine.LifecycleEngine.VisitAll` | app.js:282-322 | the loop leaves the state `SweepUpTo` gives after every task; it reports a death exactly when some task dies, an entry exactly when some task enters purgatory, and a change exactly when either holds |
| `Engine.LifecycleEngine.CheckLifecycle` | app.js:280-337 | the loop leaves exactly the state `Sweep` gives and keeps ids unique; it reports a change exactly when some task changed state; its notice is the death notice if any task died, else the purgatory notice if any entered, else none |
| `Engine.LifecycleEngine.AddTask` | app.js:504-517 | the new state is `Actions.AddTask` of the old; it reports whether the title was accepted |
| `Engine.LifecycleEngine.TouchTask` | app.js:527-537 | the new state is `Touch` of the old; it reports whether the id was found |
| `Engine.LifecycleEngine.CompleteTask` | app.js:549-561 | the new state is `Complete` of the old; it reports whether the id was found |
| `Engine.LifecycleEngine.KillTask` | app.js:572-583 | the new state is `Kill` of the old; it reports whether the id was found |
| `Engine.LifecycleEngine.ResurrectTask` | app.js:591-598 | the new state is `Resurrect` of the old; it reports whether a dead task came back |
| `Trace.StepScore` | app.js:12-14 | every action moves the score by exactly its `CONFIG` delta: +10, −5, −2, or −5 per natural death, and 0 when it has no effect |
| `Trace.RunScore` | app.js:224-225 | after any history the score is the start plus the sum of the `CONFIG` deltas, in order |
| `Trace.WellFormedLater` | app.js:304-321 | a record consistent at one clock reading stays consistent at a later one |
| `Trace.StepKeepsWellFormed` | app.js:504-598 | under a clock that does not run backwards, every action keeps each status's stamp set and every stamp between creation and now; it keeps ids in place and never moves a last touch back |
| `Trace.AddKeepsWellFormed` | app.js:504-517 | adding a task keeps every record consistent and earlier tasks in place |
| `Trace.TouchKeepsWellFormed` | app.js:527-537 | a touch keeps every record consistent and never moves a last touch back |
| `Trace.CompleteKeepsWellFormed` | app.js:558-561 | completing keeps every record consistent |
| `Trace.KillKeepsWellFormed` | app.js:578-583 | a kill keeps every record consistent |
| `Trace.ResurrectKeepsWellFormed` | app.js:591-598 | a resurrection keeps every record consistent |
| `Trace.SweepKeepsWellFormed` | app.js:286-322 | a sweep keeps every record consistent and each task in place |
| `Trace.ScenarioAdded` | app.js:504-517 | adding "Write report" at time 0 to an empty engine gives exactly one new active task, score 0, no flags |
| `Trace.ScenarioEntersPurgatory` | app.js:293-309 | 24h 1s later the task is in purgatory, stamped then, with the cool flag and the score unchanged |
| `Trace.ScenarioDies` | app.js:311-320 | at 48h 1s the purgatory task is dead, stamped then, with death count 1, score −5 and both flags cleared |
| `Trace.ScenarioResurrected` | app.js:591-598 | resurrected at 50h the task is active with last touch and resurrection at 50h, score −7 |
| `Trace.ScenarioDecayAndResurrect` | app.js:304-321 | a task created at 0 is in purgatory at 24h 1s with score 0, dead at 48h 1s with one death and −5, and active after resurrection with −7 |
| `Trace.ScenarioCompleteIsFinal` | app.js:558-561 | a task completed at once has +10, and no sweep at any time changes it or the score |
| `Trace.ScenarioTouchResets` | app.js:533-534 | a task touched at 23h is still active at 24h 1s |

## Left out

- DOM rendering and event wiring are presentation and browser APIs: `createTaskCard`, `createTombstone`, `createCloud`, the `render*` functions, `updateCounts`, `switchTab`, `initEvents`, `escapeHtml`, `formatDate`, `getHeatColor`, and the per-card countdown colours.
- Speech bubbles (`showAngel`, `showDevil`), the message tables and `randomFrom` are UI text and randomness. The sweep's choice of notice (a death outranks entry into purgatory) is returned as a `Notice` value.
- `save` and `load` are localStorage and JSON I/O. Their failures are swallowed. The engine starts from the empty state that `load` gives when nothing is saved.
- `generateId` uses randomness and the clock. The id is a parameter, and it must not be in the list yet.
- `setTimeout` and `setInterval` scheduling is left out: the animation delay in `completeTask` and `killTask`, the one-minute sweep interval, the 30-second redraws and the bubble timers. Only the step that the deferred callback commits is modelled. The model finds the task by id at commit time. JavaScript uses the record it found at request time. These are the same record, because tasks are never removed. Duplicate deferred calls are a timing matter and are not modelled.
- `updateScore`: only `score += delta` is modelled. The animation class and the `save` call are left out.
- Floating-point arithmetic: heat is an exact `real`, not an IEEE double. Timestamps, elapsed times, the score and the `Math.floor(ms / 1000)` ladders of `timeAgo` and `timeLeft` are doubles in JavaScript. They are exact integers below 2^53, and the model's unbounded `int` agrees with them in that range. Clock readings and scores stay far below it.
- `Actions.Resurrect` and `Engine.LifecycleEngine.ResurrectTask`: `resurrectTask` reads `Date.now()` twice, once for `lastUpdatedAt` and once for `resurrectedAt` (app.js:596-597), so the second stamp can be a millisecond later. The model stamps both with the one `now`.
- `getHeatLevel` reads the clock itself (app.js:251), a little after the sweep's own reading (app.js:281). The model uses the sweep's `now` for heat. So the model does not capture the millisecond window in which a task whose sweep elapsed time is just under 24 hours already has heat 0.5 or less: there app.js gives the cool warning while the task stays active, and `Lifecycle.WarnOnlyOnEntry` holds only of the model.
- Text is a sequence of Unicode scalar values, not of UTF-16 code units as in JavaScript, so a title holding a lone surrogate cannot be represented. `trim()` is unaffected: every character it removes is in the Basic Multilingual Plane.
- Task records are values in a sequence that the engine reassigns. JavaScript mutates shared objects in place. The model does not capture object identity. Only the deferred callbacks hold extra references, and they write the same record.
- `timeAgo` and `timeLeft` on non-integer milliseconds: clock readings are integers, so `ms` is an `int`.
- Saved records with malformed fields (a non-numeric `deathCount`, a missing status) come from `load` and are out of scope. `deathCount` is a `nat` when present.
