# A verified model of a CalDAV/CardDAV server's core

The server keeps calendars and addressbooks in database tables and answers WebDAV requests over them. This project
models the parts of it that are algorithms and state, and proves what they promise, for all inputs, all runs and
all reachable states:

- **Recurrence** (`CalendarTimes`, `CalendarZones`, `RecurrenceSet`, `RecurrenceExpansion`): turning the times of an
  event into instants, merging its rule, RDATEs, EXDATEs and overrides into occurrences within a budget, jumping close
  to the range first, and bounding the end of the whole series.
- **The time-range index** (`TimeRangeIndex.dfy`, module `TimeRangeIndexing`) and **busy time** (`BusyTime`,
  `FreeBusy`): the columns a query filters on before it expands anything, why that never hides a match, and the blocks
  of a free/busy report, from the stored events to the coalesced result.
- **The store of calendar objects** (`CalendarStore`): saves and deletes as transactions over rows, contents, change
  log, ETags and quota counters, and every interleaving of them.
- **Contact queries** (`AddressbookQueryFilter`): a filter compiled to an SQL condition with named parameters, read
  back by the rules of SQL over the index rows.
- **Access control** (`AccessControl`), **paging** (`QueryPaging`), the **digest nonce store** (`DigestNonceStore`) and
  the **calendar view's layout** (`CalendarLayout`).

`Sequences` and `Wrappers` hold what JavaScript provides: a stable sort, `filter`, and values that may be missing.
`dafny verify dfyconfig.toml` checks everything.

## How to read it

Code that changes state step by step is imperative here: classes with fields (`Store`, `Database`), loops with
invariants, a generator as a datatype of its local variables that `Resume` carries on from. Each such member is tied
to a function or a predicate that says what it computes, and lemmas say what that means.

Foreign code appears as a value with stated properties. ical.js's rule iterator is a sequence of wall clocks, finite
or endless, in any order, for each DTSTART and the zone it is read in: UNTIL is compared as an instant, so the
iterator may get further in one reading of a floating time than in another. A zone is an offset function; the parsed
card, the principals that match a requester and the random nonce are arguments. A wall clock is the number of
milliseconds its fields would be if read as UTC.

Where a property holds only under conditions, they are predicates that can be checked before the call:

- `MayJump`: a rule without COUNT, up to WEEKLY, yields from a later period's start what it yields from DTSTART on, as
  one without BYxxx parts does (`PlainRuleHasNoMemory`), and over the rule's own wall clocks the zone falls back by no
  more than the margin. `JumpIsHarmless`: no RDATE that counts in the range is displaced by the rule only before or only
  after the jump; `NoPeriodOnTheRule` gives that for every range.
- `Fits`: at the event's own times, and only there, the query's zone keeps the starts below +14 hours and the ends above
  -12 hours, where an instance takes its length from DTSTART's (`OffsetsFit`; a zone that is steady enough fits every
  event, `SteadyZoneFits`); the RDATEs depend on the reading if DTSTART does (`Homogeneous`); the iterator ascends from
  DTSTART on (`WalksForward`) and keeps to UNTIL, with the day of slack the code grants (`UntilHonoured`), which is asked
  only of rules too long to walk; and `MayJump`.
- `Astray`: an instance that counts for the exact test, but that the stored reading lacks. There an EXDATE excludes it,
  or the rule does not get as far, or the rule displaces its PERIOD (`Lost`); or it is a PERIOD that only the jump
  brings back (`BroughtBack`). With EXDATEs that depend on the reading as DTSTART does, the same walk in both readings
  (`WalksAlike`, which any DTSTART with a zone of its own has) and no PERIOD on the rule, nothing goes astray
  (`NothingGoesAstray`).
- `Clear`: the level of access entries that decides an object has no entries of one position that apply and disagree.

## Where the code does something else than it says

The model follows the code. Each of these comes with its condition and with an input that shows it.

- The recurrence set is described as rule and RDATEs without EXDATEs. An instant of the rule that comes after a later
  one (a wall clock that a spring gap maps past its successor) is dropped: `SetIsUnionExactlyIfNothingIsLost`, `LateInstantIsLost`.
- The jump "leaves out" only instances that end before the range. It can also leave out the rule instance that would
  have displaced a PERIOD. Then, and only then, the moved walk counts what the walk from DTSTART does not:
  `JumpCountsTheSame`, `CountedAfterJump`, `PeriodOnTheRuleShows`.
- The span end is to be "never too small". It bounds every instance of the set, but an expansion has an occurrence that
  ends later exactly if a PERIOD that its jump brings back does: `SpanEndBoundsOccurrences`, `PeriodOnTheRuleShows`.
- The index "must never hide" a match. Of an event that fits, a match is hidden exactly if the range starts more than
  12 hours after the stored span end, and an instance that went astray counts in it: `HidesExactlyWhatWentAstray`. For
  each way to go astray there is an event that only that way hides: `MixedExdateHides`, `LongerWalkHides`,
  `DisplacedPeriodHides`, `BroughtBackHides`. An event whose rule is short enough to walk, and that has no PERIOD on an
  instant that the rule yields only out of order (`NoPeriodOnLateInstant`), is hidden from some range exactly if a lost
  instance goes on until more than 12 hours after the span, or a jump that far brings one back: `HiddenFromSomeExactly`.
- No event is to end before it starts. That is checked with floating times read as UTC; in a zone with a gap, and for a
  PERIOD anywhere, one can: `SpringGapTurnsAround`. Such an interval covers nothing. A free/busy report is exact and without
  overlap all the same, and without such blocks if no event and no PERIOD ends before it starts in the query's
  reading: `ReportBusyTime`, `EventsRunForward`.
- Guarding on an ETag is to make sure that two conditional requests cannot both win. After the first has committed the
  second does exactly if the last write to the object since, the first included, put the same ETag back, as a save of
  unchanged content does, and nothing else refuses it: `OneGuardedWriterWins`, `TwoGuardedWritersWin`.
- The batched access check is to give exactly the answer of the single one. It does if a resource's rows come in the
  same order to both; over all orders the database may return them in, it does for an object exactly if the level that
  decides is `Clear`: `SameOrderSameAnswer`, `AgreeExactlyWhereClear`, `SelectionCanDiffer`.
- Coalescing depends on the order of its input. Two inputs that cover the same give different lists exactly if both types
  open at one instant (an interval starts there that no earlier one of its type reaches) and the inputs begin with
  different types; coalescing twice changes the list exactly if both open at one instant and no interval of the type
  that the input begins with is among the earliest: `SameCoverageInput`, `CoalescedTwice`, `OrderOfInputShows`,
  `CoalescingAgainShows`.
- The distance of two days is to be "immune" to clock changes. It counts days exactly if the changes between the two
  midnights amount to less than half a day, which a day skipped at the date line does not: `DaysBetweenCounts`,
  `SkippedDayIsNotCounted`.
- A bar is to cover the days that its event touches. Where the clocks once went back over a midnight, an instant after it
  can fall on the day before. In a row whose days and neighbours count, a bar ends no earlier than it starts exactly if
  the event's first day is not after its last and a day of the row lies between them (`MeetsRow`); an event whose ends
  lie between the midnights of their days meets every row it touches: `BarsRunForwardExactly`, `TouchedDays`,
  `TurnedBackEventRunsBackward`.
- Events that overlap are to be side by side. They are if they share 89.999 seconds of the day's 1440 minutes; a
  millisecond less, and rounding to minutes can part them: `SharedTimeSideBySide`, `RoundingParts`.
- A block of the time grid can start at minute 1440 even on a day of 24 hours (by rounding, from 23:59:30 on): it is
  alone in its cluster and has no height, so its one column is no crowd: `ColumnsAreLargestCrowd`, `TopPastTheDay`, `LateEventHasNoHeight`.

## Model

| member | source | states |
|---|---|---|
| CalendarZones.RuleFollowsRfc | packages/core/src/caldav/calendar-zones.ts:99-114 | with one change of offset near a wall clock, section 3.3.5 of RFC 5545 (first of a repeated time, offset before the change for a skipped one) picks exactly one offset, the earlier one until the repeated or skipped time is over |
| CalendarZones.OffsetFor | packages/core/src/caldav/calendar-zones.ts:158-166 | the offset is one of those a day before and a day after |
| CalendarZones.OffsetForFollowsRule | packages/core/src/caldav/calendar-zones.ts:158-166 | trying both offsets finds what RFC 5545 asks for |
| CalendarZones.VtimezoneOffset | packages/core/src/caldav/calendar-zones.ts:115-136 | the binary search ends at a second at which the reading turns, within a day; where it flips once by at most a day, that is the flip, and the skipped or repeated time after it gets the earlier offset |
| CalendarZones.ResolveBoth | packages/core/src/caldav/calendar-zones.ts:115-166 | the VTIMEZONE and the IANA resolver of one zone agree, and follow RFC 5545 |
| CalendarTimes.TimesAreRead | packages/core/src/caldav/calendar-time.ts:49-63 | a UTC time is its instant; a zoned one the instant at which a clock ahead of UTC by the zone's offset shows it; a floating time or date is read in the zone of choice or as UTC |
| CalendarTimes.EndsAre | packages/core/src/caldav/calendar-time.ts:115-130 | DTEND, or a DURATION after the start, or for a date the wall-clock midnight a day on, or the start itself (section 9.9 of RFC 4791) |
| RecurrenceSet.Draw | packages/core/src/caldav/expand-recurrence.ts:278-285 | an element drawn from the rule is counted before it is used, and the draw past the limit fails |
| RecurrenceSet.TakeNext | packages/core/src/caldav/expand-recurrence.ts:293-303 | one turn of the merge takes the earlier of the rule's element and the RDATE, the rule's on a tie, and fails only where the budget must be exceeded |
| RecurrenceSet.Resume | packages/core/src/caldav/expand-recurrence.ts:288-312 | resuming the generator yields the next instance of the set, or ends when there is none; it always ends |
| RecurrenceSet.Collect | packages/core/src/caldav/expand-recurrence.ts:246-312 | up to the end of the range exactly the instances of the set, strictly ascending, or the limit error exactly if more than `limit` elements of the rule must be drawn; even for an endless rule |
| RecurrenceSet.NotYetStopped | packages/core/src/caldav/expand-recurrence.ts:288-299 | while the walk goes on no instance at or after the range's end has been taken, so every element it draws must be drawn |
| RecurrenceSet.SetIsUnionExactlyIfNothingIsLost | packages/core/src/caldav/expand-recurrence.ts:230-240 | the set is (rule or RDATE) without EXDATE exactly if each instant of the rule that comes out of order is excluded, an RDATE, or also yielded in order |
| RecurrenceSet.JumpKeepsInstances | packages/core/src/caldav/expand-recurrence.ts:241-244 | leaving out a beginning of the rule that lies before `skipTo` neither loses nor adds an instance of interest, exactly if no RDATE of interest is displaced by the rule in one series only |
| RecurrenceSet.JumpExceedsNoSooner | packages/core/src/caldav/expand-recurrence.ts:60-67 | the jumped walk fails only where the plain one does |
| RecurrenceExpansion.RDatesAscend | packages/core/src/caldav/expand-recurrence.ts:202-228 | the RDATEs are strictly ascending, one for each instant listed: the last listed there |
| RecurrenceExpansion.ExpandOverrides | packages/core/src/caldav/expand-recurrence.ts:403-413 | the overridden instants are those of the RECURRENCE-IDs, and the overrides found are those that overlap the range on their own |
| RecurrenceExpansion.ExpandMaster | packages/core/src/caldav/expand-recurrence.ts:415-440 | of the master's instances exactly those that no override stands in for and that overlap the range, or the limit error |
| RecurrenceExpansion.ExpandOccurrences | packages/core/src/caldav/expand-recurrence.ts:392-443 | answers or fails with the limit error, even for an endless rule; the answer is the overlapping overrides and counted instances, sorted |
| RecurrenceExpansion.OccurrencesAre | packages/core/src/caldav/expand-recurrence.ts:353-372 | an answer holds exactly the overlapping overrides and the overlapping instances without override, ascending by start |
| RecurrenceExpansion.InstancesAre | packages/core/src/caldav/expand-recurrence.ts:230-312 | the recurrence set by the event's own fields: not at an EXDATE; from the rule, later than all before, with the master's length; or else the last RDATE listed at its instant, a PERIOD with its own end |
| RecurrenceExpansion.AnswerIs | packages/core/src/caldav/expand-recurrence.ts:353-443 | every occurrence by its fields: an override at its own time in the range, or an instance in the range that no RECURRENCE-ID names, each with its component's transparency, status and kind of day |
| RecurrenceExpansion.ExpansionIsUnique | packages/core/src/caldav/expand-recurrence.ts:392-443 | there is one answer, order included |
| RecurrenceExpansion.JumpStaysClear | packages/core/src/caldav/expand-recurrence.ts:116-137 | the moved DTSTART stays two periods and the margin before `skipTo` |
| RecurrenceExpansion.JumpSize | packages/core/src/caldav/expand-recurrence.ts:94-160 | for each of the five frequencies, with the length of its unit written out: a rule without COUNT is moved by whole periods, as close as two periods and the margin allow, less than a period short of that; not at all if there is no room for one, for a COUNT, or a DATE by less than days |
| RecurrenceExpansion.NoJump | packages/core/src/caldav/expand-recurrence.ts:111-113 | months and years, and events without a rule, are not moved |
| RecurrenceExpansion.PlainRuleHasNoMemory | packages/core/src/caldav/expand-recurrence.ts:107-113 | a rule that recurs every `n` seconds, minutes, hours, days or weeks yields from a later period's start what it yields from DTSTART on |
| RecurrenceExpansion.PlainRuleMayJump | packages/core/src/caldav/expand-recurrence.ts:107-121 | so such an event meets `MayJump` in every zone of a fixed offset |
| RecurrenceExpansion.JumpLeavesOut | packages/core/src/caldav/expand-recurrence.ts:122-160 | for a rule without memory and a zone within the margin, the jump leaves out a beginning of the rule, all before `skipTo` |
| RecurrenceExpansion.EarlyInstancesDoNotCount | packages/core/src/caldav/expand-recurrence.ts:421-436 | what starts more than one length before the range does not overlap it |
| RecurrenceExpansion.JumpCountsTheSame | packages/core/src/caldav/expand-recurrence.ts:293-306 | from the moved start the same instances count as from DTSTART, exactly if no RDATE that counts ties with the rule in one of the two walks only |
| RecurrenceExpansion.NoPeriodNoHarm | packages/core/src/caldav/expand-recurrence.ts:202-206 | without a PERIOD on an instant of the rule the jump is harmless in every range |
| RecurrenceExpansion.HarmfulJumpDiffers | packages/core/src/caldav/expand-recurrence.ts:293-306 | where it is not harmless, the two walks list different instances |
| RecurrenceExpansion.FastForwardRefines | packages/core/src/caldav/expand-recurrence.ts:102-121 | where the jump is harmless, walking from the moved start lists what walking from DTSTART lists and fails no sooner; wherever the plain walk stays within budget, both give the same answers |
| RecurrenceExpansion.PeriodOnTheRuleShows | packages/core/src/caldav/expand-recurrence.ts:293-306 | a PERIOD that coincides with the rule's first instance counts after the jump and not before, and ends after the span |
| RecurrenceExpansion.LateInstantIsLost | packages/core/src/caldav/expand-recurrence.ts:304-306 | a rule of three instants across a spring gap whose third is not in the set |
| RecurrenceExpansion.LatestMasterEnd | packages/core/src/caldav/expand-recurrence.ts:493-532 | no end exactly for a rule without COUNT and UNTIL or a COUNT too long to walk, else the latest of the master's end and of the instances, or for a rule too long of the UNTIL bound and the RDATEs |
| RecurrenceExpansion.ComputeRecurrenceSpanEnd | packages/core/src/caldav/expand-recurrence.ts:483-535 | null exactly where no end can be told, else the latest end of all |
| RecurrenceExpansion.SpanEndBoundsInstances | packages/core/src/caldav/expand-recurrence.ts:460-475 | the span is never too small: no instance of the whole set ends after it, however far the walk got |
| RecurrenceExpansion.HowLongIsTooLong | packages/core/src/caldav/expand-recurrence.ts:57-77 | a rule with COUNT has no end in the index exactly if it counts above 10,000, and can be walked by an open-ended query exactly up to 20,000 |
| RecurrenceExpansion.LongRuleSpan | packages/core/src/caldav/expand-recurrence.ts:446-475 | the span of a rule too long to walk is the latest of UNTIL plus an instance length and a day, the event's own end, its RDATEs' and its overrides' |
| RecurrenceExpansion.SpanEndBoundsOccurrences | packages/core/src/caldav/expand-recurrence.ts:460-475 | no occurrence of an expansion in the same reading ends after the span, exactly if no PERIOD that its jump brings back does |
| RecurrenceExpansion.AnswersExactlyWithinBudget | packages/core/src/caldav/expand-recurrence.ts:386-391 | the expansion has an answer exactly if the walk stays within the budget |
| RecurrenceExpansion.CountedAfterJump | packages/core/src/caldav/expand-recurrence.ts:293-306 | what counts from the moved start and not from DTSTART are exactly the PERIODs in the range that an instant of the rule displaces only before the jump |
| TimeRangeIndexing.ComputeTimeRangeIndex | packages/core/src/caldav/index-calendar-object.ts:97-150 | the earliest start of components and RDATEs, the span end, and the description of the master or, without one, of the first of the earliest overrides |
| TimeRangeIndexing.EarliestStart | packages/core/src/caldav/index-calendar-object.ts:137-140 | an RDATE before everything else moves the indexed start, and nothing starts before it |
| TimeRangeIndexing.ColumnsAre | packages/core/src/caldav/index-calendar-object.ts:97-150 | of an event with a master: the master's effective end, kind of day, transparency and status, and the earliest start of all components and RDATEs |
| TimeRangeIndexing.StoredIsShifted | packages/core/src/caldav/index-calendar-object.ts:39-48 | a time's instant in the stored reading is the query's plus the offset of the query's zone, or the same if the time names a zone |
| TimeRangeIndexing.EndIsShifted | packages/core/src/caldav/calendar-time.ts:115-130 | between the readings a component's length changes by what the zone varies between its start and its end |
| TimeRangeIndexing.SteadyZoneFits | packages/core/src/caldav/index-calendar-object.ts:49-54 | a zone between -12 and +14 hours, whose lowest offset less all it varies by stays above -12, fits every event of one kind of times |
| TimeRangeIndexing.RuleCounterpart | packages/core/src/caldav/expand-recurrence.ts:278-285 | an instance of the rule in the query's reading, unless it is lost, has one in the stored reading that ends no more than the bound earlier |
| TimeRangeIndexing.RDateCounterpart | packages/core/src/caldav/expand-recurrence.ts:207-228 | so has an instance from an RDATE that is not lost, even if the stored reading drops the RDATE for coinciding with the rule |
| TimeRangeIndexing.MatchFinds | packages/core/src/caldav/expand-recurrence.ts:353-372 | the exact test finds something exactly if the walk stays within the budget and an override overlaps the range or an instance counts |
| TimeRangeIndexing.PrefilterIs | packages/core/src/caldav/index-calendar-object.ts:49-54 | the range is widened by 14 hours at its end and by 12 at its start |
| TimeRangeIndexing.HidesExactlyWhatWentAstray | packages/core/src/caldav/index-calendar-object.ts:60-91 | of an event that fits, the prefilter hides a match of the exact test exactly if an instance counts that the stored reading lacks or the jump brings back, and the range starts more than 12 hours after the stored span end |
| TimeRangeIndexing.PrefilterIsSound | packages/core/src/caldav/index-calendar-object.ts:60-91 | whenever the exact test finds an occurrence, the stored start is below the range's end plus 14 hours and the stored span end null or at least the range's start minus 12 hours, unless an instance went astray in a range that starts after that |
| TimeRangeIndexing.NothingGoesAstray | packages/core/src/caldav/expand-recurrence.ts:246-312 | with EXDATEs like DTSTART, one walk for both readings and no PERIOD on the rule no instance goes astray |
| TimeRangeIndexing.HiddenFromSomeExactly | packages/core/src/caldav/index-calendar-object.ts:60-91 | an event whose rule can be walked to its end is hidden from some range exactly if an instance lost to the stored reading goes on until more than 12 hours after the span, or a jump to after that brings back a PERIOD |
| TimeRangeIndexing.FindEvents | packages/core/src/caldav/calendar-query-report.ts:356-417 | the query with its prefilter returns what testing every event of the calendar would; only of the events to be found is anything asked |
| TimeRangeIndexing.AnswerCalendarQuery | packages/core/src/caldav/calendar-query-report.ts:276-308 | the answer is the first `maxResults` matching readable events, flagged truncated exactly when there are more |
| TimeRangeIndexing.MixedExdateHides | packages/core/src/caldav/expand-recurrence.ts:255-257 | an event with a floating RDATE and a UTC EXDATE that fits in all else and that the index hides from a query of a fixed zone |
| TimeRangeIndexing.LongerWalkHides | packages/core/src/caldav/expand-recurrence.ts:268-286 | a floating daily event with UNTIL, whose rule gets a day further ten hours east of UTC than it does when stored |
| TimeRangeIndexing.DisplacedPeriodHides | packages/core/src/caldav/expand-recurrence.ts:293-306 | a floating daily event with a PERIOD that the rule displaces when stored, but does not reach ten hours west of UTC |
| TimeRangeIndexing.BroughtBackHides | packages/core/src/caldav/expand-recurrence.ts:293-306 | a daily event in UTC with a PERIOD on the rule, which the jump brings back after the stored span |
| BusyTime.BusyIntervalsOf | packages/core/src/caldav/free-busy-query-report.ts:48-104 | the busy time of an object is exactly its opaque, not cancelled occurrences, typed by their own status; none if it is too long to expand |
| BusyTime.ContributionIs | packages/core/src/caldav/free-busy-query-report.ts:41-57 | opaque occurrences are busy if confirmed or without a status, tentative if tentative; a cancelled or transparent one blocks nothing (section 7.10 of RFC 4791) |
| BusyTime.CollectPages | packages/core/src/caldav/free-busy-query-report.ts:327-374 | page by page, the busy time of exactly the candidates that may be read |
| BusyTime.CollectBusyIntervals | packages/core/src/caldav/free-busy-query-report.ts:303-375 | with the prefilter in front, still all the busy time of all readable events |
| BusyTime.ReportBusyTime | packages/core/src/caldav/free-busy-query-report.ts:271-284 | the report's blocks of each type cover exactly the busy time of the readable events, neither overlap nor touch, and ascend; none ends before it starts if no busy time does |
| BusyTime.EventsRunForward | packages/core/src/caldav/icalendar-parser.ts:481-487 | if in the query's reading no component and no PERIOD of the readable events ends before it starts, no busy time does |
| BusyTime.SpringGapTurnsAround | packages/core/src/caldav/icalendar-parser.ts:477-487 | a floating event that passes the check of an upload, and ends before it starts in a zone with a gap |
| FreeBusy.GroupByType | packages/core/src/caldav/free-busy-query-report.ts:115-120 | the intervals by type, in the order in which the types first occur |
| FreeBusy.AppendMerged | packages/core/src/caldav/free-busy-query-report.ts:124-136 | the in-place extension of the last block yields the merge of the sorted intervals |
| FreeBusy.Coalesce | packages/core/src/caldav/free-busy-query-report.ts:114-139 | the loop computes the coalesced list the lemmas are about |
| FreeBusy.MergeShape | packages/core/src/caldav/free-busy-query-report.ts:128-135 | merging keeps the covered points and leaves gaps between the blocks, whatever the intervals |
| FreeBusy.FewestBlocks | packages/core/src/caldav/free-busy-query-report.ts:106-113 | no other intervals that cover the same points are fewer |
| FreeBusy.SeparatedUnique | packages/core/src/caldav/free-busy-query-report.ts:106-113 | the blocks of a type are determined by the points they cover |
| FreeBusy.CoalesceCorrect | packages/core/src/caldav/free-busy-query-report.ts:106-139 | per type exactly the same points, disjoint and not touching; sorted by start overall; and the fewest blocks, unless an interval ends before it starts |
| FreeBusy.SameCoverageInput | packages/core/src/caldav/free-busy-query-report.ts:114-139 | inputs that cover the same points give the same blocks per type, and the same list exactly if the types open at no common instant or the inputs begin with the same type |
| FreeBusy.BlocksStartWhereOpened | packages/core/src/caldav/free-busy-query-report.ts:128-135 | a block of a type starts exactly where an interval of that type does and no earlier one reaches |
| FreeBusy.FirstBlock | packages/core/src/caldav/free-busy-query-report.ts:114-139 | the result begins with the type the input begins with, exactly if an interval of that type is among the earliest |
| FreeBusy.PermutedInput | packages/core/src/caldav/free-busy-query-report.ts:114-139 | the same for a permuted input |
| FreeBusy.CoalescedTwice | packages/core/src/caldav/free-busy-query-report.ts:114-139 | coalescing twice keeps every type's blocks, and the list exactly if the types open at no common instant or an interval of the type the input begins with is among the earliest |
| FreeBusy.OrderOfInputShows | packages/core/src/caldav/free-busy-query-report.ts:114-139 | two intervals whose order the result keeps |
| FreeBusy.CoalescingAgainShows | packages/core/src/caldav/free-busy-query-report.ts:114-139 | three intervals whose blocks swap when coalesced again |
| CalendarStore.FindByUid | packages/core/src/caldav/calendar-object-writes.ts:127-130 | finds an object of the calendar with that UID if there is one |
| CalendarStore.Database.constructor | packages/core/src/caldav/calendar-object-writes.ts:243-248 | starts from the given tables |
| CalendarStore.Database.Rollback | packages/core/src/caldav/calendar-object-writes.ts:247-248 | restores the tables of the transaction's start |
| CalendarStore.Database.RecordChange | packages/core/src/caldav/calendar-change.service.ts:32-54 | bumps the calendar's sequence number and logs the change under it, or fails for a missing calendar |
| CalendarStore.Database.ApplyQuotaDelta | packages/core/src/quota/apply-quota-delta.ts:82-114 | charges user and tenant, clamped at zero, or says which refused a positive delta over its limit |
| CalendarStore.ChargeIsDecided | packages/core/src/quota/apply-quota-delta.ts:92-113 | a charge succeeds exactly if both counters stay within their limits or nothing is added, and moves both; the user's refusal comes before the tenant's |
| CalendarStore.ByteLengthIsUtf8 | packages/core/src/caldav/calendar-object-writes.ts:18-21 | what is charged is the length of the text in UTF-8 |
| CalendarStore.Utf8ReadsBack | packages/core/src/caldav/calendar-object-writes.ts:18-21 | the encoding that is counted is UTF-8: bytes, as many as the first one says, from which the character can be read |
| CalendarStore.Database.Write | packages/core/src/caldav/calendar-object-writes.ts:110-211 | the whole new state of a save, or its error: UID conflict, taken name, changed ETag, quota |
| CalendarStore.Database.Overwrite | packages/core/src/caldav/calendar-object-writes.ts:137-173 | compare-and-set on the ETag, charge of the difference to the object's own owner, new content and index |
| CalendarStore.Database.Create | packages/core/src/caldav/calendar-object-writes.ts:175-210 | a new row with content and index, charged to its owner; refused where the name is taken |
| CalendarStore.Database.SaveCalendarObject | packages/core/src/caldav/calendar-object-writes.ts:243-262 | commits the write or leaves every table as it was |
| CalendarStore.Database.Remove | packages/core/src/caldav/calendar-object-writes.ts:301-348 | logs, credits and removes the row and its content, or finds nothing to delete |
| CalendarStore.Database.DeleteCalendarObject | packages/core/src/caldav/calendar-object-writes.ts:295-356 | deletes, or answers `false` with nothing changed |
| CalendarStore.OverwriteKeeps | packages/core/src/caldav/calendar-object-writes.ts:137-173 | a committed overwrite keeps log, names, UIDs, contents and index consistent |
| CalendarStore.CreateKeeps | packages/core/src/caldav/calendar-object-writes.ts:175-210 | so does a committed create |
| CalendarStore.DeleteKeeps | packages/core/src/caldav/calendar-object-writes.ts:301-348 | so does a committed delete |
| CalendarStore.StepKeepsConsistent | packages/core/src/caldav/calendar-object-writes.ts:91-109 | a failed operation leaves no trace; a committed one keeps the invariant |
| CalendarStore.RunKeepsConsistent | packages/core/src/caldav/calendar-object-writes.ts:91-109 | in every reachable state, over every interleaving with stale snapshots, the invariant holds: logs are numbered 1 to `syncSeq`, and replaying one gives the calendar's names |
| CalendarStore.UidIsDecided | packages/core/src/caldav/calendar-object-writes.ts:124-135 | a save that meets a UID conflict reports the URL that has the UID, or that the object changed if it is the one asked for |
| CalendarStore.OverwriteIsDecided | packages/core/src/caldav/calendar-object-writes.ts:137-173 | an overwrite commits exactly if the row is there, with the expected ETag if one was given, and both quotas have room; else it reports which of these failed first |
| CalendarStore.CreateIsDecided | packages/core/src/caldav/calendar-object-writes.ts:175-210 | a create commits exactly if its owner exists, both quotas have room and the name is free; else it reports which of these failed first |
| CalendarStore.RefusalIs | packages/core/src/caldav/calendar-object-writes.ts:249-261 | a refusal of a unique index is reported as a UID conflict if another URL has the UID, else as a changed object |
| CalendarStore.DeleteIsDecided | packages/core/src/caldav/calendar-object-writes.ts:295-356 | a delete removes the row exactly if it is there with the expected ETag, and fails only for a calendar that is gone |
| CalendarStore.CommitIsLogged | packages/core/src/caldav/calendar-change.service.ts:32-54 | a committed operation adds one entry to the log: the calendar's next number, the name, and added, modified or deleted |
| CalendarStore.ChangesSinceTokenSuffice | packages/core/src/caldav/calendar-change.service.ts:14-54 | the log entries after any earlier token turn the names of that moment into the current ones (section 3 of RFC 6578) |
| CalendarStore.GuardedCommit | packages/core/src/caldav/calendar-object-writes.ts:138-146 | a guarded operation commits exactly if the row has the ETag it guards on and, for a save, the UID is unchanged and both quotas have room |
| CalendarStore.EtagAfter | packages/core/src/caldav/calendar-object-writes.ts:137-173 | a row's ETag after an operation is the installed one if the operation took effect on that row, else the one before |
| CalendarStore.EtagIsThatOfLastWrite | packages/core/src/caldav/calendar-object-writes.ts:137-173 | in every state of a run after a committed write to a row, it has an ETag exactly if the last such write installed it; failed writes and writes to other objects play no part |
| CalendarStore.OneGuardedWriterWins | packages/core/src/caldav/calendar-object-writes.ts:72-78 | after one of two writers that guard on an ETag has committed, the other commits exactly if the last write to the object since put that ETag back and nothing else refuses it |
| CalendarStore.UnchangedContentWinsAgain | packages/core/src/caldav/calendar-object-writes.ts:72-78 | a guarded save that installs the ETag it guards on commits again |
| CalendarStore.TwoGuardedWritersWin | packages/core/src/caldav/calendar-object-writes.ts:72-78 | a run on tables with one object in which two saves guarded by one ETag both commit |
| CalendarStore.IdentitiesAreStable | packages/core/src/caldav/calendar-object-writes.ts:124-135 | names and UIDs stay unique in a calendar, and an object keeps its UID, name, calendar and owner (section 5.3.2.1 of RFC 4791) |
| CalendarStore.CommitCharges | packages/core/src/caldav/calendar-object-writes.ts:148-186 | each committed operation charges exactly the change of one object's bytes, to the object's owner and tenant |
| CalendarStore.QuotaIsConserved | packages/core/src/caldav/calendar-object-writes.ts:226-237 | after any interleaving, failures included, every counter is what its objects weigh, so never negative |
| CalendarStore.GrowthStaysWithinLimits | packages/core/src/quota/apply-quota-delta.ts:58-70 | in every run a committed save that adds bytes leaves the two counters it charges within their limits |
| CalendarStore.TenantIsSumOfUsers | packages/core/src/caldav/calendar-object-writes.ts:148-186 | in every reachable state what calendar objects add to a tenant's counter is the sum of what they add to its users' counters, if objects are created for users of their tenant |
| AddressbookQueryFilter.BuildFilterCondition | packages/core/src/carddav/addressbook-query-filter.ts:173-274 | a condition unless the filter is empty, with every parameter it names bound to the value it was compiled for |
| AddressbookQueryFilter.CompilePropFilter | packages/core/src/carddav/addressbook-query-filter.ts:253-267 | compiling a prop-filter keeps the bindings of those before it |
| AddressbookQueryFilter.CompileTextMatches | packages/core/src/carddav/addressbook-query-filter.ts:222-265 | so does compiling each of its text-matches |
| AddressbookQueryFilter.NamesDiffer | packages/core/src/carddav/addressbook-query-filter.ts:227-254 | different prop-filters and text-matches have different parameter names |
| AddressbookQueryFilter.EscapedIsLiteral | packages/core/src/carddav/addressbook-query-filter.ts:125-128 | an escaped text matches itself and nothing else inside a LIKE pattern |
| AddressbookQueryFilter.PercentMatchesAnywhere | packages/core/src/carddav/addressbook-query-filter.ts:240-247 | a leading percent sign lets the rest of the pattern match at any later place |
| AddressbookQueryFilter.UnderscoreMatchesOne | packages/core/src/carddav/addressbook-query-filter.ts:125-128 | an underscore matches any one character, and an escaped one itself |
| AddressbookQueryFilter.PatternMeansMatch | packages/core/src/carddav/addressbook-query-filter.ts:235-248 | the bound pattern under LIKE, or equality, is exactly contains, starts-with, ends-with or equals |
| AddressbookQueryFilter.ParenthesesRead | packages/core/src/carddav/addressbook-query-filter.ts:262-273 | parentheses make any condition one operand |
| AddressbookQueryFilter.JoinReads | packages/core/src/carddav/addressbook-query-filter.ts:262-272 | operands joined by AND or OR are read as allof or anyof of them |
| AddressbookQueryFilter.IndexVCard | packages/core/src/carddav/index-vcard.ts:90-116 | the object's rows become exactly the card's normalised values and the version marker; other objects' rows stay |
| AddressbookQueryFilter.DefinedMeans | packages/core/src/carddav/addressbook-query-filter.ts:206-220 | an index row of the property exists exactly if the card has a value of it |
| AddressbookQueryFilter.TextMatchMeans | packages/core/src/carddav/addressbook-query-filter.ts:222-251 | a text-match is read over all values of the property, and its negation negates that whole result |
| AddressbookQueryFilter.PropFilterMeans | packages/core/src/carddav/addressbook-query-filter.ts:253-267 | the condition of a prop-filter means defined, not defined, or defined with its text-matches combined by its own test |
| AddressbookQueryFilter.CompiledFilterMeansFilter | packages/core/src/carddav/addressbook-query-filter.ts:136-154 | the database reads the generated condition over the index rows as exactly what section 10.5 of RFC 6352 says of the card, collations aside: both sides are compared as normalised |
| AccessControl.FreeBusyAggregation | packages/core/src/acl/privilege-aggregation.ts:83-112 | free/busy reading comes with `read` and `all` only, and grants nothing else (section 6.1.1 of RFC 4791) |
| AccessControl.AllAggregation | packages/core/src/acl/privilege-aggregation.ts:34-37 | `all` covers the shared vocabulary, itself included, and nothing of scheduling |
| AccessControl.WriteAggregation | packages/core/src/acl/privilege-aggregation.ts:38-39 | `write` covers the writing of properties and of content, and nothing else: neither itself nor `write-acl` |
| AccessControl.SchedulingAggregation | packages/core/src/acl/privilege-aggregation.ts:40-47 | the two scheduling aggregates cover their parts and nothing else |
| AccessControl.ElementaryPrivilege | packages/core/src/acl/privilege-aggregation.ts:48-50 | any other privilege covers itself alone |
| AccessControl.CalendarPrivilegesExtendShared | packages/core/src/acl/privilege-aggregation.ts:69-79 | apart from free/busy reading a calendar's privileges cover what the shared ones do |
| AccessControl.CollectAces | packages/core/src/acl/collect-aces.ts:84-119 | the resource's entries, then each ancestor's, nearest first, each sorted by position; ends on any graph |
| AccessControl.ChainClimbs | packages/core/src/acl/collect-aces.ts:97-116 | on cyclic graphs, too, the walk lists each ancestor once, each followed by its parent |
| AccessControl.ChainIsComplete | packages/core/src/acl/collect-aces.ts:97-116 | every collection that can be reached by going up is listed |
| AccessControl.CollectedListAsksNearestFirst | packages/core/src/acl/evaluate-privilege.ts:98-116 | evaluating the combined list is the decision of the nearest level that has a matching entry, else deny (section 6 of RFC 3744) |
| AccessControl.DecisionIsLowest | packages/core/src/acl/evaluate-privilege.ts:107-114 | a level decides as one of its matching entries of lowest position does |
| AccessControl.OrderMattersExactlyForTies | packages/core/src/acl/collect-aces.ts:93-95 | the order of rows changes a decision exactly if matching entries of lowest position disagree |
| AccessControl.CollectedDecision | packages/core/src/acl/evaluate-privilege.ts:316-329 | an object's check asks its own entries, then its collection's |
| AccessControl.AppliesWhereNamed | packages/core/src/acl/evaluate-privilege.ts:51-81 | an entry applies exactly if it names the requester, one of its groups or a special principal that stands for it, and covers what is asked for |
| AccessControl.OwnerEntryIsForTheOwner | packages/core/src/acl/evaluate-privilege.ts:69-77 | an entry for the owner applies exactly to those who own the object |
| AccessControl.CheckIsDecidedBy | packages/core/src/acl/evaluate-privilege.ts:191-238 | the check allows what the lowest of the object's entries about the request grants, else of its collection's; with no entry about it, nothing |
| AccessControl.SelectionIsDecidedBy | packages/core/src/acl/evaluate-privilege.ts:265-334 | so does the selection, of each of its objects |
| AccessControl.CheckOne | packages/core/src/acl/evaluate-privilege.ts:191-238 | the check of a single object decides as the nearest level of the rows it is given |
| AccessControl.OwnAcesByObject | packages/core/src/acl/evaluate-privilege.ts:281-301 | the chunked lookup lists for every id its rows of all chunks, in the order in which they come |
| AccessControl.GroupedRowsAre | packages/core/src/acl/evaluate-privilege.ts:281-301 | for an object of the list these are its rows in the table, each once |
| AccessControl.SelectObjectsWithPrivilege | packages/core/src/acl/evaluate-privilege.ts:265-334 | the selection holds exactly the ids of the objects that their own rows, their owner and the collection's rows allow |
| AccessControl.SelectionHoldsWhatTheCheckAllows | packages/core/src/acl/evaluate-privilege.ts:243-263 | the chunked, grouped, memoised selection holds the id of an object with a clear answer exactly when the single check allows it, whatever order rows come in and whatever other objects are in the list |
| AccessControl.AgreeExactlyWhereClear | packages/core/src/acl/evaluate-privilege.ts:250-256 | over every order of rows, the selection gives an object the answer of the single check exactly if the level that decides has no tie that disagrees |
| AccessControl.SameOrderSameAnswer | packages/core/src/acl/evaluate-privilege.ts:250-256 | with the same order of a resource's rows, the selection equals the single check without any condition |
| AccessControl.SelectionCanDiffer | packages/core/src/acl/evaluate-privilege.ts:250-256 | two entries that tie and disagree, on which the check allows what the selection leaves out |
| QueryPaging.FindReadableMatches | packages/core/src/carddav/addressbook-query-report.ts:175-218 | paging returns the first `count` readable matches in order |
| QueryPaging.FindMatches | packages/core/src/caldav/calendar-query-report.ts:372-417 | so does the paging that tests exactly before it checks access, and stops in the middle of a page |
| QueryPaging.TruncatedExactlyWhenMorePass | packages/core/src/caldav/calendar-query-report.ts:277-287 | asking for one more than the limit tells exactly whether more pass |
| QueryPaging.Take | packages/core/src/carddav/addressbook-query-report.ts:175-218 | what is cut off is the end: a prefix, and all of it where the count allows |
| QueryPaging.AnswerQuery | packages/core/src/carddav/addressbook-query-report.ts:136-166 | the answer is the first `limit` readable matches, flagged truncated exactly when more than the limit pass |
| DigestNonceStore.Store.constructor | packages/core/src/auth/digest-nonce-store.ts:69-74 | an empty store with the given options |
| DigestNonceStore.Store.GenerateNonce | packages/core/src/auth/digest-nonce-store.ts:82-95 | the nonce is entered with its expiry and the oldest entries go until the cap holds |
| DigestNonceStore.Store.ValidateAndConsumeNonce | packages/core/src/auth/digest-nonce-store.ts:107-120 | unknown, stale, replay or valid; only a valid count is recorded |
| DigestNonceStore.Store.Sweep | packages/core/src/auth/digest-nonce-store.ts:128-138 | removes exactly the entries that expired longer ago than the grace period, and counts them |
| DigestNonceStore.StoreIsLedgerSuffix | packages/core/src/auth/digest-nonce-store.ts:82-138 | in every run the store holds the newest of all nonces ever issued, and what it lacks within the cap has expired beyond the grace period |
| DigestNonceStore.AnswersAsExpected | packages/core/src/auth/digest-nonce-store.ts:47-61 | every answer is that of a ledger that forgets nothing within the cap, but that a stale nonce may have become unknown |
| DigestNonceStore.AnswersAre | packages/core/src/auth/digest-nonce-store.ts:97-138 | told by the history alone: a request is valid exactly for a nonce issued earlier, not expired and with fewer than the cap issued since, with a safe count above zero and above all accepted for it; a replay exactly if only the count is wrong; stale exactly if it expired, was not evicted, and no sweep came a grace period later; else unknown |
| DigestNonceStore.SweepingIsBisimilar | packages/core/src/auth/digest-nonce-store.ts:58-60 | under any sweep schedule the same requests are valid and the same are replays as without sweeps |
| DigestNonceStore.AcceptedCountsIncrease | packages/core/src/auth/digest-nonce-store.ts:97-106 | for each nonce the accepted counts strictly increase, so no pair is accepted twice (section 3.4 of RFC 7616) |
| DigestNonceStore.AcceptedOnlyWhileLive | packages/core/src/auth/digest-nonce-store.ts:107-120 | a request is accepted only for a nonce issued earlier, before it expires and before it is evicted |
| DigestNonceStore.EvictsEarliestExpiring | packages/core/src/auth/digest-nonce-store.ts:88-93 | the cap holds after every event, and what an issue evicts expires no later than what stays |
| CalendarLayout.FirstFree | packages/admin-ui/src/lib/calendarLayout.ts:183-187 | the first column free at the item's start, or a new one |
| CalendarLayout.ItemOf | packages/admin-ui/src/lib/calendarLayout.ts:139-163 | an event cut to the day lies within its 1440 minutes, and has height unless it starts past them |
| CalendarLayout.GreedyStep | packages/admin-ui/src/lib/calendarLayout.ts:183-190 | placing one more item keeps the columns free of overlaps |
| CalendarLayout.NewColumnIsNeeded | packages/admin-ui/src/lib/calendarLayout.ts:184-187 | a column is added only for an item that starts inside one of every other column |
| CalendarLayout.CrowdNeedsColumns | packages/admin-ui/src/lib/calendarLayout.ts:118-119 | items that share a minute need a column each in any layout |
| CalendarLayout.CloseCluster | packages/admin-ui/src/lib/calendarLayout.ts:171-178 | every block of the cluster learns its number of columns and joins the result |
| CalendarLayout.PlaceItems | packages/admin-ui/src/lib/calendarLayout.ts:167-193 | every cluster is laid out: items in order, no overlap in a column, each told the cluster's columns |
| CalendarLayout.LayoutTimeColumn | packages/admin-ui/src/lib/calendarLayout.ts:131-194 | the same for the sorted items of a day of any length |
| CalendarLayout.ColumnsAreLargestCrowd | packages/admin-ui/src/lib/calendarLayout.ts:118-119 | a cluster's columns are the largest number of its blocks sharing a minute, exactly if it starts before minute 1440 |
| CalendarLayout.ColumnsAreOptimal | packages/admin-ui/src/lib/calendarLayout.ts:126-130 | no layout without overlaps needs fewer columns |
| CalendarLayout.GridIsCorrect | packages/admin-ui/src/lib/calendarLayout.ts:126-130 | blocks that overlap share a cluster and have different columns; blocks of different clusters never overlap |
| CalendarLayout.GridHoldsTheDay | packages/admin-ui/src/lib/calendarLayout.ts:137-165 | the blocks are a permutation of the day's items |
| CalendarLayout.ItemsAre | packages/admin-ui/src/lib/calendarLayout.ts:137-165 | the items are those of the timed events that have some of their time on the day or are a point in it |
| CalendarLayout.BlockIsAtItsTime | packages/admin-ui/src/lib/calendarLayout.ts:147-163 | a block starts within half a minute of its event, and ends within a minute of it if the event takes up 20 minutes and ends by minute 1440; a shorter one is 20 minutes tall or reaches minute 1440 |
| CalendarLayout.SharedTimeSideBySide | packages/admin-ui/src/lib/calendarLayout.ts:126-130 | events that share 89.999 seconds of the day's 1440 minutes are side by side, in different columns of as many |
| CalendarLayout.RoundingParts | packages/admin-ui/src/lib/calendarLayout.ts:149-153 | two events that share 89.998 seconds, and whose blocks do not overlap |
| CalendarLayout.BlocksInOrder | packages/admin-ui/src/lib/calendarLayout.ts:165 | blocks come by their start, at one minute the tallest first |
| CalendarLayout.ClusterHangsTogether | packages/admin-ui/src/lib/calendarLayout.ts:181-183 | a block that does not begin a cluster begins inside an earlier block of it |
| CalendarLayout.TopPastTheDay | packages/admin-ui/src/lib/calendarLayout.ts:147-154 | a block starts past the last minute exactly for an event less than half a minute before 24 hours after midnight, or later |
| CalendarLayout.LateEventHasNoHeight | packages/admin-ui/src/lib/calendarLayout.ts:147-154 | the last half minute of a day of 24 hours is drawn from minute 1440 on, with no height |
| CalendarLayout.DaysBetweenCounts | packages/admin-ui/src/lib/calendarLayout.ts:50-55 | the rounded distance of two midnights counts calendar days, exactly if the clock changes in between amount to less than half a day |
| CalendarLayout.SkippedDayIsNotCounted | packages/admin-ui/src/lib/calendarLayout.ts:50-55 | a calendar without one of its days, in which two days count as one |
| CalendarLayout.ColumnOf | packages/admin-ui/src/lib/calendarLayout.ts:236-241 | within the row an instant's column is its day's distance from the first; before the row it is none after the first column and beyond it none before the last, whatever the calendar does there |
| CalendarLayout.TouchedDays | packages/admin-ui/src/lib/calendarLayout.ts:230-235 | an event that starts and ends between the midnights of its days touches exactly the days from its first to its last, and meets every row it touches |
| CalendarLayout.BarsRunForwardExactly | packages/admin-ui/src/lib/calendarLayout.ts:238-246 | a bar ends no earlier than it starts exactly if the event's days are in order and meet the row |
| CalendarLayout.TurnedBackEventRunsBackward | packages/admin-ui/src/lib/calendarLayout.ts:238-246 | an event over a midnight that the clocks go back over, whose bar ends before it starts |
| CalendarLayout.CandidateCoversItsDays | packages/admin-ui/src/lib/calendarLayout.ts:230-248 | a bar's columns are exactly the days of the row from the event's first day to its last; only the row's own days have to count 24 hours, and nothing is asked of other instants |
| CalendarLayout.CandidatesAre | packages/admin-ui/src/lib/calendarLayout.ts:228-248 | the bars are those of the all-day events with time in the row and, if asked for, of the timed ones that cross a local midnight; each tells whether it goes on before and after the row |
| CalendarLayout.OnlyAllDayBars | packages/admin-ui/src/lib/calendarLayout.ts:228-230 | without the latter only all-day events have bars |
| CalendarLayout.BarsInOrder | packages/admin-ui/src/lib/calendarLayout.ts:249-253 | bars are laid by their first column, the longest first |
| CalendarLayout.PlaceBars | packages/admin-ui/src/lib/calendarLayout.ts:255-265 | bars on one lane never share a day, and the lanes are the largest number of bars on one day |
| CalendarLayout.LayoutBars | packages/admin-ui/src/lib/calendarLayout.ts:215-266 | the same for the events of a row of days, on as few lines as possible; nothing for no days |

## Left out

- ical.js's iterator, vCard and iCalendar parsing, `Intl` and MySQL's collation: foreign code, taken as arguments with the properties named above. Civil dates enter as wall clocks in milliseconds, so a leap second and the range of `Date` are not modelled.
- Unknown zones: `toInstantMs` can throw for one; stored objects and requests are checked for that before, and the offset function is total here.
- `ZoneRegistry`'s cache and the choice between a VTIMEZONE and an IANA zone of the same name: a lookup that the zone argument stands for.
- Tasks and journals (`taskMatchesTimeRange`, the task branch of the index) and `matchesPropFilters`, which belongs to the exact test a query is given.
- RecurrenceExpansion.FastForwardRefines: asks that the range does not end before `skipTo`; a range and an event that do not end before they start give that.
- The map of RDATEs by start is a sequence here and built by a function, because only its sorted values are used.
- CalendarLayout.LayoutBars: the local calendar is given as its midnights and the day of each instant, and the row as its first day and length, because day arithmetic in a zone is a library's; no day begins before an earlier one, the row begins on its first day, 24 hours count as a day within it (`RowCounts`), and its events meet it (`AllMeetRow`). An all-day event's dates are local midnights already.
- In the layout milliseconds are integers, and a minute is rounded as `Math.round` does; `visibleDays`, `eventsOnDay` and `singleDayEvents` are filters over the same span.
- A transaction of the store is one step. Recording the change locks the calendar's row first, which orders the writers of one calendar; the writers of different calendars share only the counters of users and tenants, whose conditional updates take the row's lock until the end of the transaction, and touch no row of each other otherwise. So the unique index that settles a race for a name is the check `Create` makes. Ids come from a counter.
- CalendarStore.Database.Remove: the object's properties, access entries and locks, and the owner entry of a new object, are tables of their own that nothing here reads.
- CalendarStore.QuotaIsConserved: what contacts and files charge to the same counters enters as a fixed amount, because their writes are other code.
- AddressbookQueryFilter.CompiledFilterMeansFilter: asks that the database's folding of ASCII case in LIKE leaves the normalised texts as they are; `normalizeIndexValue` (trim and lower case) is an argument. `findUnsupportedFilterParts` is the predicate `Supported`, and re-indexing of stale contacts is left out.
- The database's order of rows is a function of the query's ids here, and may be another one for every check and selection; ids are distinct, as primary keys are.
- `getCurrentUserPrivilegeSet`, group membership and special principals' lookup: the same decision asked once for each privilege, and the set of matching principals, which is computed from given memberships.
- DigestNonceStore.Store.GenerateNonce: the nonce is an argument, and freshness an assumption on histories (`Legal`), as is a clock that never runs backwards. Scheduling the sweep is left out.
- HTTP routes, XML, sync tokens, scheduling, groups, locks, the admin interface beyond its layout, and configuration: plumbing over the parts modelled here.
