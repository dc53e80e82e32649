# FocusInk: calendar, approvals, page files and wake planning

FocusInk is a print inbox for an e-paper device. A Raspberry Pi receives print jobs over IPP,
converts them to page files and prints what the user approves; a relay carries approvals when the
device cannot reach the Pi; the device shows pages, a calendar and a Pomodoro timer, and sleeps in
between. This project models the parts of that system whose correctness is not visible in any one
function, and proves what they promise.

* **Calendar** (`CivilDate`, `Weekdays`, `Zones`, `ZoneLaws`, `CalendarEvents`, `Recurrence`,
  `RecurrenceSet`, `FastForwardLimit`, `ReturningClock`, `Overrides`, `IcsParser`, `Feed`, `FeedLaws`, `Unfold`). Civil dates over all integers, ordinal weekdays,
  yearly daylight-saving transitions, RRULE expansion (section 3.3.10 of RFC 5545) with its
  fast-forward, early breaks and iteration caps, RECURRENCE-ID overrides, and the streaming
  unfolder (section 3.1 of RFC 5545). The parser is a class whose loops are proved against
  functions; those functions are proved to agree with a plain reading that lists every due start
  from DTSTART on and keeps every override, and what they emit is stated on the calendar itself: which dates recur,
  which offset is in force, and what each event in the list says of the VEVENT it comes from.
* **Approvals** (`PiRows`, `PiMachine`, `PiProgress`, `PiReuse`, `PiPrinting`, `PiServer`, `RelayServer`, `Outbox`, `SyncPass`,
  `Delivery`). Every database transaction, read and `lp` call is one step of a machine in which any
  number of deliveries interleave and die anywhere. Safety is proved over all runs from the empty
  world; the sequential code (databases, `_finish`, `apply_approval`, startup replay, the poll, the outbox, a
  sync pass) is written as methods on classes and tied to the same row updates.
* **Page files** (`Bits`, `XtcFormat`, `XtcCodec`, `XtcTables`, `XtcWriters`, `Dither`, `DitherRows`, `Render`,
  `PanelPages`). The server's encoder, the browser's in-place encoder with error diffusion, the preview
  decoder and the device's renderer, over one definition of the file.
* **Wake planning** (`Pomodoro`, `PomodoroLaws`, `Wake`). The session's catch-up loop against a closed form of the
  elapsed time, and the sleep decision against the moments that must not be slept through.
* **IPP** (`Ipp`). The attribute parser and the attribute writers (section 3.1 of RFC 8010).

`CArith` holds C++'s truncating division, `Options` a value that may be absent.

## What the proofs found

Where a promise does not hold for every input, the model keeps the code and states exactly when it does.

* Fast-forwarding a DAILY or WEEKLY rule loses occurrences of long events. For rules without COUNT and
  zones that jump by at most three days, nothing is lost in any window if and only if every
  occurrence is over two days into the next cycle and the clock does not come back to UNTIL
  (`FastForwardLimit.ExactCondition`); without transitions that is a bound on the event's length, for
  DAILY INTERVAL + 2 days (`DailyLimit`).
* The day loop ends at the first start past UNTIL. In a zone that jumps by more than a day a later
  start may come back before UNTIL and is lost; `ReturningClock` gives such a feed.
* A zone's offset is the one that its latest transition has set, in either hemisphere, if and only if the offsets
  are equal, or one of this year's transitions is past, or last year's transitions came in the same order
  (`ZoneLaws.OffsetIsInForce`). Transitions in different months always do (`MonthsKeepOrder`); two rules in
  one month may change places from one year to the next.
* Overrides are pruned by the start of the base occurrence they replace, one day around the window.
  That is invisible if and only if no base occurrence in the list starts a day or more outside the
  window (`Overrides.PruningExact`); a multi-day event that reaches into the window can have a
  cancelled instance survive (`Overrides.FarBaseSurvives`).
* The renderer's comment (`firmware/src/xtc/XtcReader.cpp:140-144`) calls whole-byte centring exact
  when the widths differ by a multiple of 8. The code needs a centring offset that is a multiple of
  8, so for whole-byte widths a difference that is a multiple of 16; and for other page widths the
  padding bits must fall beyond the panel (`Render.CentredExactlyWhenAligned`, for the sizes that are drawn at all).
* Overlapping calls for one approval may both replay the side effect and print twice without any crash
  (`PiPrinting.OverlapPrintsTwice`). One more call of a print is harmless if and only if, when it starts, the
  approval is applied already or no other call for it can still reach `lp` or has just come back from it
  (`PiPrinting.HarmlessExactlyWhenClear`).
* A purged job id may be inserted again. The new row is printed by at most one device approval if
  and only if it is inserted while no device print of that job is past its claim
  (`PiReuse.HarmlessExactlyWhenQuiet`).
* A timer wake draws the Pomodoro screen when the seconds to the next checkpoint are 0
  (`firmware/src/main.cpp:227-235`). They are 0 only once the phase is over (`Wake.DueOnlyWhenPhaseIsOver`),
  and the session was advanced when the device woke, so the redraw at each checkpoint that
  `docs/planner.md:103-106` describes does not happen.
* A phase that ends while the device is awake, in its sync pass say, makes the next sleep 0 seconds long, and for 0
  seconds no timer is set (`firmware/src/power/SleepManager.cpp:29-31`), though the query's comment asks for an
  immediate wake: the device sleeps until the button. That happens if and only if a phase ends between advancing
  the session and asking for the sleep (`Wake.NoTimerExactlyWhenPhaseEnded`).
* A reminder whose target passes between the decision on reminders and the query for the sleep does not shorten
  that sleep. The wake that shows it comes within 29 s of its target otherwise, and without a session or another
  reminder only then (`Wake.StartReminderIsShown`, `Wake.EndReminderIsShown`).
* Startup replay raises, so that the server does not start, if and only if an unapplied device
  print's job row is gone (`PiServer.ReplayUnappliedApprovals`).

## Model

| member | source | states |
|---|---|---|
| CivilDate.RoundTripDate | firmware/src/calendar/IcsParser.cpp:49-60 | the date of a valid date's day number is that date, negative eras included |
| CivilDate.RoundTripDays | firmware/src/calendar/TimeUtil.h:13-20 | every integer is the day number of one valid date, the one the inverse computes |
| CivilDate.EpochDay | firmware/src/calendar/TimeUtil.h:13-20 | day number 0 is 1 January 1970 |
| CivilDate.MonthLength | firmware/src/calendar/IcsParser.cpp:42-46 | the month table equals the distance between consecutive first days of months |
| CivilDate.NextDateIsNextDay | firmware/src/calendar/TimeUtil.h:13-20 | the calendar's next date has the next day number |
| CivilDate.NextDayIsNextDate | firmware/src/calendar/IcsParser.cpp:49-60 | adding 1 to a day number steps to the calendar's next date |
| CivilDate.FirstDayIncreases | firmware/src/calendar/IcsParser.cpp:681-685 | first days of later months come later by at least the length of the earlier month |
| Weekdays.WeekdaysFollow | firmware/src/calendar/IcsParser.cpp:63 | weekdays cycle in order over all integers and day 0 is a Thursday |
| Weekdays.CountClosedForm | firmware/src/calendar/IcsParser.cpp:687-704 | how often a weekday occurs in n days, against counting them one by one |
| Weekdays.MonthlyDayFromStart | firmware/src/calendar/IcsParser.cpp:687-694 | the formula gives the k-th such weekday, counted day by day, and leaves the month exactly when there are fewer |
| Weekdays.MonthlyDayFromEnd | firmware/src/calendar/IcsParser.cpp:695-698 | the same from the end of the month for negative ordinals |
| Weekdays.TransitionIsNthOrLast | firmware/src/calendar/IcsParser.cpp:66-78 | a transition day is in its month and is the week-th such weekday or, failing that, the last |
| Weekdays.ComputeTransitionDayNum | firmware/src/calendar/IcsParser.cpp:66-78 | the loop that steps back by weeks computes that day, for any week number |
| Zones.EpochSpread | firmware/src/calendar/IcsParser.cpp:412-432 | equal clock times on two dates are their days apart in seconds, up to the daylight-saving jump |
| Zones.OccurrenceSpread | firmware/src/calendar/IcsParser.cpp:626-630 | occurrences n days apart are n * 86400 s apart up to the jump |
| Zones.OccurrencesIncrease | firmware/src/calendar/IcsParser.cpp:626-630 | with a jump under a day, later days have later starts |
| Zones.BaseIsOccurrence | firmware/src/calendar/IcsParser.cpp:622-630 | the occurrence on DTSTART's own day is DTSTART |
| ZoneLaws.UtcCountsSeconds | firmware/src/calendar/IcsParser.cpp:426-433 | UTC counts the seconds of the calendar one by one from the start of 1970 |
| ZoneLaws.OffsetIsInForce | firmware/src/calendar/IcsParser.cpp:412-424 | local time less UTC is the offset set by the latest of this and last year's transitions, iff the offsets are equal, or one of this year's is past, or last year's came in the same order |
| ZoneLaws.MonthsKeepOrder | firmware/src/calendar/IcsParser.cpp:415-422 | transitions in different months are distinct and keep their order, so the law above holds for such zones |
| ZoneLaws.FixedOffset | firmware/src/calendar/IcsParser.cpp:413 | a zone without daylight-saving time is always its standard offset from UTC |
| CalendarEvents.EmitAllAppends | firmware/src/calendar/IcsParser.cpp:523-543 | emission appends the starts that pass EXDATE and the window, in order, while there is room, and flags truncation exactly when one did not fit |
| CalendarEvents.WantedIncrease | firmware/src/calendar/IcsParser.cpp:523-527 | filtering keeps order and keeps only listed, wanted starts |
| Recurrence.WeeklyDue | firmware/src/calendar/IcsParser.cpp:643-672 | a weekly rule is due on the BYDAY weekdays, or DTSTART's own when there are none, of every INTERVAL-th Monday-based week |
| Recurrence.WeeklyWithoutByday | firmware/src/calendar/IcsParser.cpp:643 | without BYDAY that is every 7 * INTERVAL days from DTSTART |
| RecurrenceSet.MonthDayIs | firmware/src/calendar/IcsParser.cpp:687-704 | a date is the one a monthly rule asks for iff it is the ordinal weekday (the last one listed), the BYMONTHDAY-th day from the start or from the end of the month, or has DTSTART's day |
| RecurrenceSet.VisitRecurs | firmware/src/calendar/IcsParser.cpp:653-737 | every due step of a loop is a recurrence on the calendar |
| RecurrenceSet.RecurrenceVisited | firmware/src/calendar/IcsParser.cpp:653-737 | and every recurrence on the calendar is a due step |
| RecurrenceSet.MatchesAreRecurrences | firmware/src/calendar/IcsParser.cpp:604-737 | the listed starts are exactly the instants of recurrences not past UNTIL |
| RecurrenceSet.EmittedAreRecurrences | firmware/src/calendar/IcsParser.cpp:604-737 | without COUNT and where the loop's limits cannot be felt, an instant is emitted iff the rule recurs there, not past UNTIL, it is no EXDATE and it is in the window |
| RecurrenceSet.CountKeepsEarliest | firmware/src/calendar/IcsParser.cpp:629-635 | COUNT keeps exactly the starts that fewer than COUNT others come before |
| Recurrence.DayVisit | firmware/src/calendar/IcsParser.cpp:655-668 | what one turn of the day loop sees: the day's occurrence and whether it is due |
| Recurrence.MonthVisit | firmware/src/calendar/IcsParser.cpp:681-711 | what one turn of the month loop sees: a missing day or a start before DTSTART is passed over |
| Recurrence.YearVisit | firmware/src/calendar/IcsParser.cpp:721-726 | what one turn of the year loop sees: 29 February only in leap years |
| Recurrence.MonthOfStep | firmware/src/calendar/IcsParser.cpp:681-685 | the i-th step lands i * INTERVAL months (or years) after DTSTART's month |
| Recurrence.StepsGoForward | firmware/src/calendar/IcsParser.cpp:626-726 | for all four frequencies a later step is at least a day later on the calendar |
| Recurrence.MonthStepsApart | firmware/src/calendar/IcsParser.cpp:681-726 | monthly and yearly steps are at least a week apart, whichever day the rule asks for |
| Recurrence.VisitsGoForward | firmware/src/calendar/IcsParser.cpp:626-726 | and its start is later by at least a day less the jump |
| Recurrence.VisitsApart | firmware/src/calendar/IcsParser.cpp:626-726 | day steps start at least their days apart, others a week apart, less the jump |
| Recurrence.SmallJumpsTolerable | firmware/src/calendar/IcsParser.cpp:655-658 | the breaks are safe for every jump up to three days, and with UNTIL on a day rule for every jump up to a day |
| Recurrence.LongJumpReturns | firmware/src/calendar/IcsParser.cpp:658 | the clock comes back to UNTIL only in a zone that jumps by more than a day |
| Recurrence.ScanComplete | firmware/src/calendar/IcsParser.cpp:632-731 | the breaks past the window and past UNTIL and the COUNT bookkeeping emit what the whole list cut to COUNT emits |
| Recurrence.LastDueBefore | firmware/src/calendar/IcsParser.cpp:645-653 | the last due day before a fast-forward target lies a whole gap before it |
| Recurrence.ThreeDaysAreShort | firmware/src/calendar/IcsParser.cpp:645-653 | duration plus jump up to three days always satisfies the fast-forward condition |
| Recurrence.WindowUnderCap | firmware/src/calendar/IcsParser.cpp:655 | step plus window (and slack) under 40000 days satisfies the cap condition |
| Recurrence.CenturyUnderCap | firmware/src/calendar/IcsParser.cpp:681-721 | for monthly and yearly rules, a window that ends before the same month a hundred years after DTSTART satisfies the cap condition |
| Recurrence.ExpansionComplete | firmware/src/calendar/IcsParser.cpp:605-732 | fast-forward, breaks and caps together emit exactly what all due starts from DTSTART up to UNTIL, cut to COUNT before EXDATE and the window, would emit; for all four frequencies |
| Recurrence.DayRulesExact | firmware/src/calendar/IcsParser.cpp:640-672 | DAILY and WEEKLY without COUNT, duration plus jump at most three days, step and window under the 40000-day cap, no return to UNTIL: exactly the uncapped scan from DTSTART |
| Recurrence.ScanIsPrefix | firmware/src/calendar/IcsParser.cpp:655-671 | from where it starts, the loop never skips, adds or reorders a due start |
| Recurrence.MatchesIncrease | firmware/src/calendar/IcsParser.cpp:626-726 | with a jump under a day the due starts strictly increase |
| Recurrence.NoStartTwice | firmware/src/calendar/IcsParser.cpp:605-732 | one VEVENT never emits two occurrences with the same start, and keeps the list before it |
| FastForwardLimit.ExactCondition | firmware/src/calendar/IcsParser.cpp:640-672 | DAILY and WEEKLY without COUNT, with or without UNTIL, in any zone with a jump up to three days: nothing is lost in any window iff every occurrence is over two days into the next cycle and the clock does not return to UNTIL |
| FastForwardLimit.InTimeNeverLoses | firmware/src/calendar/IcsParser.cpp:640-672 | the one half, for every tolerable jump and without a bound on the step |
| FastForwardLimit.LateLosesOne | firmware/src/calendar/IcsParser.cpp:645-653 | every late occurrence is lost by some window |
| FastForwardLimit.ReturnLosesOne | firmware/src/calendar/IcsParser.cpp:658 | every return to UNTIL loses an occurrence in some window |
| FastForwardLimit.ExactWhenShort | firmware/src/calendar/IcsParser.cpp:645-653 | without transitions: iff the event is at most two days plus the gap after the last qualifying day of the first cycle long, or no day qualifies |
| FastForwardLimit.DailyLimit | firmware/src/calendar/IcsParser.cpp:645-653 | for DAILY without transitions: iff it lasts at most INTERVAL + 2 days, or UNTIL lies before DTSTART |
| FastForwardLimit.LongEventLosesOne | firmware/src/calendar/IcsParser.cpp:645-653 | every longer event has a window in which an occurrence is lost |
| ReturningClock.FeedOutOfOrder | firmware/src/calendar/IcsParser.cpp:80-88 | an input for it: an offset of +3000, read as thirty hours, puts noon of 3 March before noon of 2 March, and UNTIL lies between them |
| ReturningClock.ClockReturns | firmware/src/calendar/IcsParser.cpp:653-658 | with such a feed the loop ends at the second occurrence though the third is due and within UNTIL |
| ReturningClock.ReturnIsLost | firmware/src/calendar/IcsParser.cpp:658 | and an occurrence within UNTIL is lost there, however short the event |
| Overrides.RemoveFirstAt | firmware/src/calendar/IcsParser.cpp:246-252 | erasing drops the first matching base event and nothing else |
| Overrides.Reconciled | firmware/src/calendar/IcsParser.cpp:246-261 | reconciliation leaves the surviving events in order followed by live overrides in order, truncation flagged exactly when one was dropped |
| Overrides.RemoveAllCounts | firmware/src/calendar/IcsParser.cpp:246-252 | one base event goes per matching override, the others stay in order |
| Overrides.PruningHarmless | firmware/src/calendar/IcsParser.cpp:566-576 | with every base start within a day of the window, dropping irrelevant overrides changes nothing |
| Overrides.PruningExact | firmware/src/calendar/IcsParser.cpp:566-576 | and it is invisible for every list of overrides only then |
| Overrides.FarBaseSurvives | firmware/src/calendar/IcsParser.cpp:566-576 | a base event further out survives its own cancellation |
| IcsParsing.IcsParser.EmitOccurrence | firmware/src/calendar/IcsParser.cpp:523-543 | the new list and flag are those of one emission; EXDATE, window and capacity in that order |
| IcsParsing.IcsParser.EmitIfDue | firmware/src/calendar/IcsParser.cpp:632-638 | refuses on COUNT or UNTIL without emitting; otherwise emits and counts down, whether or not the filter kept the event |
| IcsParsing.IcsParser.FirstStep | firmware/src/calendar/IcsParser.cpp:645-653 | the first step of the day loop |
| IcsParsing.IcsParser.ExpandByDays | firmware/src/calendar/IcsParser.cpp:640-672 | the loop's effect is emitting the scanned starts |
| IcsParsing.IcsParser.ExpandByMonths | firmware/src/calendar/IcsParser.cpp:674-718 | the same for the month loop, which steps by INTERVAL |
| IcsParsing.IcsParser.ExpandByYears | firmware/src/calendar/IcsParser.cpp:720-731 | the same for the year loop |
| IcsParsing.IcsParser.ExpandRecurrence | firmware/src/calendar/IcsParser.cpp:605-732 | the whole expansion of a series |
| IcsParsing.IcsParser.EndEvent | firmware/src/calendar/IcsParser.cpp:545-603 | the parser's new state after a VEVENT with a date-time: a missing UID made up, override kept, dropped or refused, single event, series, cancelled |
| FeedLaws.SingleEvent | firmware/src/calendar/IcsParser.cpp:546-600 | a single event is added once, at DTSTART, until DTEND or for DURATION or an hour, iff it is wanted, not cancelled and there is room; otherwise nothing is, and truncation is flagged iff there was no room |
| FeedLaws.SeriesEvents | firmware/src/calendar/IcsParser.cpp:597-600 | of a series without COUNT an occurrence is added at x iff the rule recurs at x and it is wanted |
| FeedLaws.BaseEventsAdded | firmware/src/calendar/IcsParser.cpp:520-544 | every event a VEVENT adds has its UID, title, status and length, is at a recurrence, no EXDATE and in the window |
| FeedLaws.OverrideKept | firmware/src/calendar/IcsParser.cpp:566-593 | a VEVENT with a RECURRENCE-ID adds nothing yet and is kept with its own time and length, or dropped |
| FeedLaws.EveryEventComesFrom | firmware/src/calendar/IcsParser.cpp:520-600 | every event a feed leaves was there before or comes from one of its VEVENTs, overlaps the window and is not cancelled |
| FeedLaws.LiveOverrideAppears | firmware/src/calendar/IcsParser.cpp:246-262 | unless something did not fit, every kept override that is not cancelled and overlaps the window is in the list |
| IcsParsing.DecimalReads | firmware/src/calendar/IcsParser.cpp:564 | the number in a made-up UID reads back, sign included |
| IcsParsing.IcsParser.EraseBase | firmware/src/calendar/IcsParser.cpp:247-252 | the inner loop of finish removes the first replaced base event |
| IcsParsing.IcsParser.Finish | firmware/src/calendar/IcsParser.cpp:236-263 | finish applies every override in turn and forgets them |
| Feed.ParseFeed | firmware/src/calendar/IcsParser.cpp:195-263 | feeding all events to a new parser and finishing leaves the list RunFeed defines |
| Feed.EventsAgree | firmware/src/calendar/IcsParser.cpp:545-603 | through any list of events the parser and the plain reading agree up to overrides that cannot matter |
| Feed.FeedExact | firmware/src/calendar/IcsParser.cpp:195-263 | caps not felt, at most 200 relevant overrides and no base event starting a day or more outside the window: the parser's final list and flag are those of the plain reading, whatever the events' lengths |
| Feed.ShortEventsStartNear | firmware/src/calendar/IcsParser.cpp:523-527 | base events of at most a day that are emitted start within a day of the window |
| Unfolding.LineReader.Feed | firmware/src/calendar/IcsParser.cpp:211-221 | the new state is that of the bytes read one by one |
| Unfolding.LineReader.HandlePhysicalLine | firmware/src/calendar/IcsParser.cpp:223-234 | continue the pending line, or hand it on and start another |
| Unfolding.LineReader.ProcessLogicalLine | firmware/src/calendar/IcsParser.cpp:265-266 | empty lines are ignored |
| Unfolding.LineReader.Finish | firmware/src/calendar/IcsParser.cpp:236-241 | the last physical and logical lines are handed on |
| Unfolding.SplitsDoNotMatter | firmware/src/calendar/IcsParser.cpp:211-221 | however the bytes are split into feed calls, the state is the same |
| Unfolding.FedLines | firmware/src/calendar/IcsParser.cpp:211-241 | for any folding with CRLF or LF endings, the lines handed on are the folded lines as capped by the buffers |
| Unfolding.KeptWhole | firmware/src/calendar/IcsParser.cpp:218-228 | a folded line survives whole iff every piece fits when its turn comes |
| Unfolding.ShortLinesFit | firmware/src/calendar/IcsParser.cpp:218-228 | lines under 4096 characters fit however they are folded |
| Unfolding.LastNewlineOptional | firmware/src/calendar/IcsParser.cpp:236-241 | a missing newline at the end changes nothing |
| Unfolding.UnfoldsAnyFolding | firmware/src/calendar/IcsParser.cpp:211-241 | any folding of lines under 4096 characters, split anyhow, reaches processing as the same lines in order, up to empty ones |
| PiMachine.StepKeepsRowInv | pi-server/focusink_server/printer_forward.py:88-192 | every quiet step keeps it: whoever is past the claim of a job's row, or has been at lp, is the row's one claimer |
| PiMachine.OnlyOneReaches | pi-server/focusink_server/db.py:384-415 | for every row a job ever gets, at most one device approval reaches submit_to_cups, whatever lp answers, over all interleavings, retries, crashes, replays and purges; only new rows of that job must be quiet |
| PiMachine.OnlyOnePrints | pi-server/focusink_server/db.py:384-415 | in any run at all, a job that never gets a second row is printed by at most one device approval |
| PiMachine.LosersAreSuperseded | pi-server/focusink_server/printer_forward.py:165-171 | in any run, an applied device print that never won a claim ended superseded, and so did one that does not hold the claim of its job's only row |
| PiMachine.FinalizingNeverChanges | pi-server/focusink_server/db.py:384-415 | in any run, a set finalizing approval never changes until a new row is inserted for the job |
| PiReuse.HarmlessExactlyWhenQuiet | pi-server/focusink_server/db.py:257-284 | in every world reached by quiet steps, a new row for a job is harmless iff no device print of the job is past its claim |
| PiReuse.NewRowPrintsTwice | pi-server/focusink_server/printer_forward.py:165-174 | under a call past the old claim, that call and a fresh approval both print for the new row |
| PiReuse.ReusedJobPrintsTwice | pi-server/focusink_server/db.py:448-455 | from every world with such a call: purge, insert, and two approvals print for one living row |
| PiPrinting.StepKeepsPrintInv | pi-server/focusink_server/printer_forward.py:111-181 | if calls start clear of the others, every step keeps: one call at most can still print or has just done so, and submissions equal the crashes or exceed them by one, the latter only when applied or in flight |
| PiPrinting.PrintedOncePlusCrashes | pi-server/focusink_server/printer_forward.py:88-130 | if calls start clear of the others, submissions of one approval number the crashes between submission and mark, or one more |
| PiPrinting.AloneIsClear | pi-server/focusink_server/printer_forward.py:88-130 | a call that starts when no other call for its approval is in progress starts clear |
| PiPrinting.HarmlessExactlyWhenClear | pi-server/focusink_server/printer_forward.py:111-121 | in every world reached by clear starts, one more delivery or replay of a print keeps submissions within 1 plus crashes in all clear continuations iff the approval is applied or no other call for it can still print or has just printed |
| PiProgress.ToLp | pi-server/focusink_server/printer_forward.py:165-181 | a call on its way to lp whose job it can claim gets there when left alone, and prints |
| PiPrinting.OverlapPrintsTwice | pi-server/focusink_server/printer_forward.py:111-121 | a run in which two overlapping deliveries print twice without a crash |
| PiServer.Database.RecordApprovalIfNew | pi-server/focusink_server/db.py:346-367 | inserts the row unless the id is there; says which |
| PiServer.Database.ClaimJobForFinalization | pi-server/focusink_server/db.py:384-415 | claims an unclaimed or already own job; says whether |
| PiServer.Database.MarkApprovalApplied | pi-server/focusink_server/db.py:369-382 | the row becomes applied with its detail |
| PiServer.Database.SetJobStatus | pi-server/focusink_server/db.py:318-320 | one row's status, nothing when there is no row |
| PiServer.Database.ListUnapplied | pi-server/focusink_server/db.py:417-421 | exactly the recorded, unapplied approvals, each once, in the order they were received |
| PiServer.Finish | pi-server/focusink_server/printer_forward.py:133-181 | what it leaves in both tables for an unapplied approval: job status and claim by action and by lp's answer, the approval's detail, nobody else's rows; and when it raises |
| PiServer.ApplyApproval | pi-server/focusink_server/printer_forward.py:88-130 | a repeated delivery of an applied approval changes nothing; any other leaves in both tables what its action and lp's answer say; any reply but an exception means applied; superseded is reported as such |
| PiServer.FinishCarriesOut | pi-server/focusink_server/printer_forward.py:67-181 | the table of what a call leaves: Delete deletes, Keep keeps, a print lp took keeps unless deleted, a refused or superseded one changes no status; only device prints claim; nobody else's rows change |
| PiServer.FinishIsRun | pi-server/focusink_server/printer_forward.py:133-181 | the sequential code is a run of the step machine with the same rows and submissions |
| PiServer.ApplyIsRun | pi-server/focusink_server/printer_forward.py:88-130 | and so is a whole delivery from its first transaction, whether new, retried or already applied |
| PiServer.ReplayOutcome | pi-server/focusink_server/printer_forward.py:184-192 | replay raises iff some pending row is stuck, and otherwise settles exactly the pending rows |
| PiServer.ReplayUnappliedApprovals | pi-server/focusink_server/printer_forward.py:184-192 | after replay nothing is unapplied, iff every unapplied device print has its job row; the count is that of the rows replayed |
| RelayServer.RelayDatabase.RecordApprovalIfNew | relay/relay_server/db.py:89-99 | inserts an undelivered envelope unless the id is there |
| RelayServer.RelayDatabase.ListPending | relay/relay_server/db.py:104-108 | exactly the undelivered envelopes, each once, in the order they came |
| RelayServer.RelayDatabase.MarkDelivered | relay/relay_server/db.py:110-115 | one envelope becomes delivered |
| RelayServer.RelayDatabase.PruneDeliveredOlderThan | relay/relay_server/db.py:117-122 | forgets exactly the delivered envelopes before the cutoff, never an undelivered one |
| RelayServer.RelayDatabase.SubmitApproval | relay/relay_server/app.py:120-143 | after "queued" the envelope is there and every earlier one is as it was |
| RelayServer.RelayDatabase.Ack | relay/relay_server/app.py:145-151 | marks a known envelope delivered, refuses an unknown one |
| RelayServer.PollOnce | pi-server/focusink_server/relay_client.py:104-140 | a poll applies every pending envelope that does not raise, acknowledges only afterwards, and returns how many it applied; the rows left at the relay and on the Pi are those of applying each in turn |
| RelayServer.EnvelopeIsHistory | pi-server/focusink_server/relay_client.py:116-136 | one turn of the poll is a history of the whole system: the rows apply_approval leaves, delivered only if applied |
| RelayServer.PollIsHistory | pi-server/focusink_server/relay_client.py:104-140 | a whole poll is a history of the system that leaves the rows PollOnce leaves and the device as it was |
| Outbox.ApprovalOutbox.Append | firmware/src/store/ApprovalOutbox.h:76-80 | appends at the end, refuses when 32 entries are there |
| Outbox.ApprovalOutbox.HasPendingForJob | firmware/src/store/ApprovalOutbox.h:86-91 | true iff some unsynced entry is for the job |
| Outbox.ApprovalOutbox.MarkSynced | firmware/src/store/ApprovalOutbox.h:93-101 | the first entry with the id becomes synced, nothing else changes |
| Outbox.ApprovalOutbox.CompactSynced | firmware/src/store/ApprovalOutbox.h:117-130 | squeezing the array in place leaves the unsynced entries in order and counts the others |
| Outbox.CompactKeepsUnsynced | firmware/src/store/ApprovalOutbox.h:113-116 | compaction keeps an entry iff it is unsynced |
| Outbox.JobIndex.Find | firmware/src/store/JobStore.h:86-91 | the first entry for the job, or none |
| Outbox.EnqueueApproval | firmware/src/store/ApprovalOutbox.h:165-194 | exactly when each of the four results comes, what changes on Ok and nothing otherwise; two unsynced approvals of one job never arise |
| Outbox.MustWait | firmware/src/sync/SyncManager.cpp:217-223 | true iff the job's original is still pending |
| Outbox.DrainOutbox | firmware/src/sync/SyncManager.cpp:213-239 | exactly the sendable entries the far side confirmed are marked; then the outbox is compacted and saved, otherwise nothing is written |
| Outbox.DrainKeepsUnconfirmed | firmware/src/sync/SyncManager.cpp:213-239 | an unsynced approval that was not confirmed is still in the outbox |
| Outbox.DrainLeaves | firmware/src/sync/SyncManager.cpp:213-239 | without repeated ids a drain leaves exactly the entries neither synced nor confirmed, in order |
| SyncPass.Upsert | firmware/src/store/JobStore.h:101-109 | overwrites the job's entry or appends; fails only when full of others |
| SyncPass.UpsertedKeeps | firmware/src/store/JobStore.h:96-109 | no other job's entry changes and every job stays listed once |
| SyncPass.UploadPendingOriginals | firmware/src/sync/SyncManager.cpp:157-201 | exactly the originals the Pi takes stop being pending, and none over the relay |
| SyncPass.UploadAndDrain | firmware/src/sync/SyncManager.cpp:53-54 | uploads come before the drain, which sees their outcome |
| SyncPass.SentOnlyWithOriginal | firmware/src/sync/SyncManager.cpp:217-223 | a pass may send an unsynced approval iff its original is not pending or was handed over in this pass |
| Delivery.NoApprovalLost | firmware/src/sync/SyncManager.cpp:203-240 | after any history, an approval once saved is unsent on the device's disk, undelivered at the relay, or applied on the Pi |
| Delivery.SavedIsPromised | firmware/src/store/ApprovalOutbox.cpp:44-61 | an approval that is chosen and saved is promised and still to be sent after a reboot |
| Delivery.EventKeepsInv | pi-server/focusink_server/relay_client.py:116-136 | every event, lost replies and crashes included, keeps the invariant behind it |
| Delivery.RemoteEventKeepsSafe | relay/relay_server/db.py:89-122 | what is safe at the relay or on the Pi stays safe under submission, poll, ack, pruning and any Pi step |
| PiMachine.StepKeepsRecorded | pi-server/focusink_server/printer_forward.py:88-181 | a finished delivery means applied, and applied rows stay applied |
| Delivery.DrainIsHistory | firmware/src/sync/SyncManager.cpp:213-239 | the outbox a drain leaves is the one its replies, compaction and save leave in the system |
| XtcFormat.ReadWritten | firmware/src/xtc/XtcFormat.h:72-82 | little-endian fields read back what was written, at every width |
| Bits.BitOfFromBits | tools/xtc-wasm/xtc_decoder.cpp:75-77 | reading bit k of a packed byte gives the k-th pixel |
| Bits.FromToBits | tools/xtc-wasm/xtc_encoder.cpp:153 | a byte is determined by its bits, so setting bits builds exactly one byte |
| XtcCodec.UnpackPacked | tools/xtc-wasm/xtc_decoder.cpp:71-79 | unpacking a packed row gives its pixels |
| XtcCodec.IndexHolds | firmware/src/xtc/XtcFormat.h:106-111 | the i-th index entry holds where page i starts |
| XtcCodec.DataHolds | pi-server/focusink_server/xtc_writer.py:115-120 | page i lies there in the data |
| XtcCodec.FileLayout | pi-server/focusink_server/xtc_writer.py:98-161 | header fields, index entry and page are where the reader looks |
| XtcCodec.DecodesBack | tools/xtc-wasm/xtc_decoder.cpp:39-84 | for 1 to 65535 pages of any size, page i of the encoded file decodes to page i, pixel for pixel |
| XtcTables.HeaderTable | pi-server/focusink_server/xtc_writer.py:121-138 | magic, version, page count, flags and the offsets of metadata, index and data are at their places |
| XtcTables.MetadataTable | pi-server/focusink_server/xtc_writer.py:140-146 | title, author, publisher and language read back up to their NUL, cut to their room; so does the time of creation |
| XtcTables.PageTable | pi-server/focusink_server/xtc_writer.py:67-77 | each index entry gives its page's offset, size and dimensions, and the page header repeats them |
| XtcTables.FoundExactly | tools/xtc-wasm/xtc_decoder.cpp:39-84 | a page is found exactly where container magic, page number, entry, page magic, size and dimensions all check |
| XtcWriters.EncodePages | pi-server/focusink_server/xtc_writer.py:52-82 | every page encoded, or a refusal iff a dimension does not fit |
| XtcWriters.PageOffsets | pi-server/focusink_server/xtc_writer.py:116-120 | each offset is the data offset plus the sizes before it |
| XtcWriters.BuildIndex | pi-server/focusink_server/xtc_writer.py:148-153 | the loop builds the index of the pages, dimensions re-read from each encoded page |
| XtcWriters.EncodeXtc | pi-server/focusink_server/xtc_writer.py:98-161 | the file of the pages, a missing creation time replaced by the clock, or a refusal iff there are none or a number does not fit |
| XtcWriters.PutFixedString | tools/xtc-wasm/xtc_encoder.cpp:51-57 | the truncated, NUL-terminated, NUL-padded field |
| XtcWriters.EncodeSinglePage | tools/xtc-wasm/xtc_encoder.cpp:70-168 | writing the zeroed buffer in place gives byte for byte the server's file of the dithered page |
| XtcWriters.DecodePage | tools/xtc-wasm/xtc_decoder.cpp:39-84 | null iff the file is unsound, otherwise the page's bits as 0 and 255 |
| XtcWriters.PreviewShowsPage | tools/xtc-wasm/xtc_decoder.cpp:39-84 | the preview of page i of an encoded file is page i |
| Dither.ErrorsBounded | tools/xtc-wasm/xtc_encoder.cpp:138-164 | every working value is in [-128, 383] and every error in [-128, 128] |
| Dither.ImageConserves | tools/xtc-wasm/xtc_encoder.cpp:150-164 | summed grey minus summed output is exactly the error shares dropped at the edges |
| Dither.TotalsClose | tools/xtc-wasm/xtc_encoder.cpp:150-164 | the totals differ by at most 8(11(h-1) + 9w + 7) |
| DitherRows.Spread | tools/xtc-wasm/xtc_encoder.cpp:156-161 | handing one error on leaves in both buffers what the pixels should have received so far |
| DitherRows.DitherRow | tools/xtc-wasm/xtc_encoder.cpp:142-163 | scattering errors over a row buffer and a carry buffer packs the row the gathering definition defines, and leaves the next row's carry |
| Render.FastPath | firmware/src/xtc/XtcReader.cpp:99-115 | the chunked copy copies the page's bytes, or fails iff data is missing |
| Render.RowPath | firmware/src/xtc/XtcReader.cpp:117-153 | every panel row is the clipped, shifted source row or white, nothing past the frame changes, and it fails iff a visible row is missing |
| Render.CopyShows | firmware/src/xtc/XtcReader.cpp:99-115 | at equal size a copied page is what the row path's definition shows |
| Render.RenderPage | firmware/src/xtc/XtcReader.cpp:91-153 | exactly when each result comes; on Ok both paths leave a frame that shows the page by one definition |
| Render.PixelShown | firmware/src/xtc/XtcReader.cpp:137-151 | which bit of the file each panel pixel is taken from, for any widths |
| Render.AlignedIsCentred | firmware/src/xtc/XtcReader.cpp:127-151 | aligned widths: every source pixel at its centred, clipped place, white elsewhere |
| Render.MarginsBalance | firmware/src/xtc/XtcReader.cpp:127-151 | opposite margins differ by at most a pixel, the odd one at the right and at the bottom |
| Render.WholeByteWidthsAligned | firmware/src/xtc/XtcReader.cpp:140-145 | widths that are multiples of 8 are aligned iff they differ by a multiple of 16 |
| Render.CentredExactlyWhenAligned | firmware/src/xtc/XtcReader.cpp:127-151 | for any size that is drawn at all, every page of it is centred to the pixel iff the offset is a whole number of bytes and no padding bits fall on the panel |
| PanelPages.EncodedPageOnPanel | firmware/src/xtc/XtcReader.cpp:71-154 | from encoder to panel: a drawn, aligned page of an encoded file shows the encoded pixels, centred, and white around them |
| Pomodoro.PomodoroSession.Start | firmware/src/pomodoro/PomodoroSession.h:42-48 | a work phase of the configured minutes, one for 0, starts now with no phase completed |
| Wake.StoppedNeverWakes | firmware/src/pomodoro/PomodoroSession.h:50-55 | a stopped session stays stopped over any wakes, asks for no wake, and leaves the sleep to the calendar |
| Pomodoro.PomodoroSession.Advance | firmware/src/pomodoro/PomodoroSession.h:66-75 | at most 1000 transitions while the phase is over; true iff one happened |
| Pomodoro.SpotSteps | firmware/src/pomodoro/PomodoroSession.h:133-166 | one transition goes to the next phase of the cycle |
| Pomodoro.AdvanceFollowsClosedForm | firmware/src/pomodoro/PomodoroSession.h:66-75 | a catch-up under the cap ends where the elapsed time modulo the cycle says |
| Pomodoro.ShortJumpFits | firmware/src/pomodoro/PomodoroSession.h:61-75 | a jump under 60000 s past the phase end always ends inside a phase |
| Pomodoro.AdvanceTwice | firmware/src/pomodoro/PomodoroSession.h:66-75 | advancing to t1 and then to t2 is advancing to t2, for any session |
| Pomodoro.SessionFollowsClock | firmware/src/pomodoro/PomodoroSession.h:42-75 | after any sequence of wakes under the cap the state is the closed form of the latest wake |
| PomodoroLaws.ClosedFormInMinutes | firmware/src/pomodoro/PomodoroSession.h:127-131 | the closed form in configured minutes: phases of exactly 60 times the minutes (1 for 0) in a cycle of s work phases, s - 1 breaks and a long break |
| PomodoroLaws.SessionInMinutes | firmware/src/pomodoro/PomodoroSession.h:60-100 | a session started and advanced at any times under the cap is in the state that the minutes since its start determine, with or without a long break |
| PomodoroLaws.AdvanceIs | firmware/src/pomodoro/PomodoroSession.h:66-75 | one catch-up goes on to the first phase that is not over, for 1000 transitions at most, whatever the session |
| Wake.ComputeWakeDecision | firmware/src/calendar/WakeSchedule.cpp:16-60 | alert, sleep and the stamps left on the event |
| Wake.TargetHardlyPassed | firmware/src/calendar/WakeSchedule.cpp:26-58 | the sleep passes a target still to fire by at most 29 s and stays within 30 s and the base interval |
| Wake.EachFiresOnce | firmware/src/calendar/WakeSchedule.cpp:28-50 | over any run of wakes each reminder shows at most once |
| Wake.DueIsShown | firmware/src/calendar/WakeSchedule.cpp:52-56 | a due reminder is shown, the one before the start taking precedence |
| Wake.DecisionMeans | firmware/src/calendar/WakeSchedule.cpp:16-60 | alert, stamps and sleep in the settings' own terms: the lead is 60 * leadMinutes seconds, the sleep is the base, leads to a target still ahead, or is 30 seconds |
| Wake.LeadsToNextPoint | firmware/src/pomodoro/PomodoroSession.h:109-121 | the answer leads exactly to the earliest checkpoint or phase end still to come |
| Wake.NextWakeIntervalSeconds | firmware/src/main.cpp:121-135 | asking how long to sleep stamps nothing |
| Wake.OneSleepSkipsNothing | firmware/src/main.cpp:121-135 | one sleep skips no checkpoint or phase end and passes an armed target by at most 29 s |
| Wake.NoTimerExactlyWhenPhaseEnded | firmware/src/power/SleepManager.cpp:25-31 | a wake that found the session in the middle of a phase sets no timer for its sleep iff a phase ended while it was awake |
| Wake.EveryPointIsWoken | firmware/src/main.cpp:201-243 | over any run of timer wakes, each with a sync pass of any length, every checkpoint and phase end that the clock determines is a wake or falls into one |
| Wake.StartReminderIsShown | firmware/src/main.cpp:210-240 | over any run of timer wakes, an armed reminder before the start is shown by the first wake that decides at or after its target, which comes at most 29 s after it unless the target passed between the wake before's decision and its sleep; without a session or other reminder, iff it did not |
| Wake.EndReminderIsShown | firmware/src/main.cpp:210-240 | and one at the end likewise, or the other in its place |
| Wake.DueOnlyWhenPhaseIsOver | firmware/src/main.cpp:227-235 | the query that decides whether a timer wake draws the session is 0 exactly when the phase is over |
| Ipp.ParseIppRequest | pi-server/focusink_server/ipp_server.py:131-185 | on any input: an error, or a request whose document is a suffix of the input |
| Ipp.DocumentIsSuffix | pi-server/focusink_server/ipp_server.py:184-185 | whatever the attributes, the document is the end of the input |
| Ipp.WriteAttribute | pi-server/focusink_server/ipp_server.py:80-82 | the attribute's bytes, or a refusal iff a length does not fit |
| Ipp.WriteSet | pi-server/focusink_server/ipp_server.py:97-105 | the loop writes the first value with the name and the others without |
| Ipp.ReadSet | pi-server/focusink_server/ipp_server.py:155-183 | a written set is read back as all its values under its one name |
| Ipp.LastValueWins | pi-server/focusink_server/ipp_server.py:179-182 | the metadata holds the last value of each of the nine names it keeps that is given one, and nothing else |
| Ipp.ParsesWhatIsWritten | pi-server/focusink_server/ipp_server.py:131-185 | header, groups, end tag and document read back as the ids, those values and exactly the document |

## Left out

- HTTP, TLS, Wi-Fi, JSON, SQL text, threads, timeouts, file names, hashes and the user interface: a request or a statement is one event or one atomic update of the rows.
- The text of calendar properties: RRULE, DURATION, date-time, VTIMEZONE and text unescaping arrive parsed; a VTIMEZONE with daylight-saving time has two yearly rules.
- RRULE shapes that the parser reads only in part, such as BYDAY on DAILY or several BYDAY days on MONTHLY: the model does what the code does, and nothing is claimed of their meaning in RFC 5545.
- IcsParsing.IcsParser.EndEvent: leaves out all-day events and unknown time zones, whose times `mktime` takes from the device's own zone.
- Overflow of 32-bit and 64-bit arithmetic in calendar steps.
- XtcWriters.DecodePage: does not model 64-bit wrap-around of offsets in files the writers did not make.
- Rounding of single-precision floats in dithering: error diffusion is over exact reals.
- `lp`, PIL, PyMuPDF: whether `lp` takes a document is a parameter of each step, and a one-bit image is given.
- Actions other than print, keep and delete, which are rejected before any row is touched.
- The relay's accounts: the rows of one account are modelled.
- The order of approvals received in the same second, which the databases leave open; rows are listed in the order of insertion.
- The window between removing and renaming in the device's file writer: a save is atomic, on the device as in the databases.
- Recording in the system model which envelope a relay row holds: an approval id fixes its job and action.
- JobIndex.remove and the download half of a sync pass, which only add and drop inbox entries; the fields of an inbox entry other than its job, status and pending original.
- UTF-8 itself: the parser's decoder and the writers' encoder are parameters, and a name that survives the round trip is assumed where names are read back.
- The device's own reading of the title and author fields, and the current-page field.
- PiMachine.OnlyOneReaches: assumes that new rows of the job are inserted quietly; `PiReuse.HarmlessExactlyWhenQuiet` shows that this is the exact condition.
- PiPrinting.PrintedOncePlusCrashes: assumes that calls start clear of the others; `PiPrinting.HarmlessExactlyWhenClear` shows that this is the exact condition.
- Recurrence.ExpansionComplete: covers jumps of up to three days; offsets further apart than that, which no zone uses, may also defeat the break two days past the window.
- FastForwardLimit.ExactCondition: is about steps under the iteration cap, which otherwise ends the loop before UNTIL matters, and about rules without COUNT, as only those are fast-forwarded.
- Feed.FeedExact: assumes the parser's own bound of 200 relevant overrides; beyond it the parser drops overrides and says so.
- Pomodoro.AdvanceFollowsClosedForm: is about catch-ups under the 1000-transition cap; `PomodoroLaws.AdvanceIs` says what any catch-up does.
- XtcWriters.EncodeSinglePage: takes a title without NUL, as its C string cannot hold one.
- Wake.EveryPointIsWoken: is about sessions with a long break and timer wakes; a wake by the button keeps the screen loop going, which advances the session itself and shows no reminder. The sync pass may replace the next event, and files are written between asking for the sleep and entering it; both are left out.
