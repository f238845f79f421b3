/** Expanding a calendar object into its occurrences, and the end of its recurrence
    (packages/core/src/caldav/expand-recurrence.ts). The merge of rule, RDATEs and EXDATEs is in RecurrenceSet. */
module RecurrenceExpansion {
  import opened CalendarTimes
  import CalendarZones
  import opened RecurrenceSet
  import opened Sequences
  import opened Wrappers

  const MAX_RECURRENCE_INSTANCES: nat := 20_000
  const MAX_SPAN_INSTANCES: nat := 10_000

  datatype Occurrence = Occurrence(start: int, end: int, isAllDay: bool, isOverride: bool, transparency: Transparency,
                                   status: Option<Status>)

  predicate OccursBefore(a: Occurrence, b: Occurrence) {
    a.start <= b.start
  }

  function OccurrenceOf(c: Component, start: int, end: int, isOverride: bool): Occurrence {
    Occurrence(start, end, c.isAllDay, isOverride, c.transparency, c.status)
  }

  predicate AtOrAfter(from: Option<int>, t: int) {
    from.None? || from.value <= t
  }

  /** The table of section 9.9 of RFC 4791: a point without an explicit end counts at the range's start. */
  predicate Overlaps(start: int, end: int, hasExplicitEnd: bool, from: Option<int>, to: Option<int>) {
    if end == start && !hasExplicitEnd then AtOrAfter(from, start) && Before(start, to)
    else (from.None? || from.value < end) && Before(start, to)
  }

  // ----- RDATEs -----

  function RDateInstance(d: RecurrenceDate, r: Resolution, length: int, hasExplicitEnd: bool): Instance {
    var start := ToInstantMs(d.start, r);
    if d.end.Some? then Instance(start, ToInstantMs(d.end.value, r), true)
    else if d.duration.Some? then Instance(start, start + d.duration.value, true)
    else Instance(start, start + length, hasExplicitEnd)
  }

  predicate StartsBefore(a: Instance, b: Instance) {
    a.start <= b.start
  }

  /** `Map.set` under the instance's start: a later value takes the place of an earlier one. */
  function Put(byStart: seq<Instance>, x: Instance): seq<Instance> {
    if byStart == [] then [x]
    else if byStart[0].start == x.start then [x] + byStart[1..]
    else [byStart[0]] + Put(byStart[1..], x)
  }

  function RDatesByStart(rdate: seq<RecurrenceDate>, r: Resolution, length: int, hasExplicitEnd: bool): seq<Instance> {
    if rdate == [] then []
    else
      var n := |rdate| - 1;
      Put(RDatesByStart(rdate[..n], r, length, hasExplicitEnd), RDateInstance(rdate[n], r, length, hasExplicitEnd))
  }

  function RDateInstances(c: Component, r: Resolution): seq<Instance> {
    StableSort(StartsBefore, RDatesByStart(c.rdate, r, Length(c, r), c.dtend.Some?))
  }

  /** RDATE `j` is the last of those at its instant, and `x` what it stands for. */
  ghost predicate LastAt(rdate: seq<RecurrenceDate>, r: Resolution, length: int, hasExplicitEnd: bool, j: nat,
                         x: Instance) {
    && j < |rdate| && x == RDateInstance(rdate[j], r, length, hasExplicitEnd)
    && forall i :: j < i < |rdate| ==> ToInstantMs(rdate[i].start, r) != x.start
  }

  ghost predicate OnePerStart(instances: seq<Instance>) {
    forall i, j :: 0 <= i < j < |instances| ==> instances[i].start != instances[j].start
  }

  lemma {:induction false} PutKeeps(byStart: seq<Instance>, x: Instance)
    requires OnePerStart(byStart)
    ensures OnePerStart(Put(byStart, x))
    ensures forall y :: y in Put(byStart, x) <==> y == x || (y in byStart && y.start != x.start)
  {
    if byStart == [] {
    } else {
      PutKeeps(byStart[1..], x);
      assert byStart == [byStart[0]] + byStart[1..];
      assert forall i :: 0 < i < |byStart| ==> byStart[0].start != byStart[i].start;
    }
  }

  lemma {:induction false} ByStartHoldsLast(rdate: seq<RecurrenceDate>, r: Resolution, length: int,
                                            hasExplicitEnd: bool)
    ensures OnePerStart(RDatesByStart(rdate, r, length, hasExplicitEnd))
    ensures forall x :: x in RDatesByStart(rdate, r, length, hasExplicitEnd)
                        <==> exists j :: LastAt(rdate, r, length, hasExplicitEnd, j, x)
  {
    if rdate == [] {
    } else {
      var n := |rdate| - 1;
      var init, y := rdate[..n], RDateInstance(rdate[n], r, length, hasExplicitEnd);
      ByStartHoldsLast(init, r, length, hasExplicitEnd);
      PutKeeps(RDatesByStart(init, r, length, hasExplicitEnd), y);
      assert LastAt(rdate, r, length, hasExplicitEnd, n, y);
      forall j: nat, x | j < n
        ensures LastAt(rdate, r, length, hasExplicitEnd, j, x)
                <==> LastAt(init, r, length, hasExplicitEnd, j, x) && x.start != y.start
      {
        assert forall i :: 0 <= i < n ==> init[i] == rdate[i];
      }
    }
  }

  /** The RDATEs come in strictly ascending order, one for each instant, which is the last listed there. */
  lemma RDatesAscend(c: Component, r: Resolution)
    ensures Ascending(RDateInstances(c, r))
    ensures forall x :: x in RDateInstances(c, r) <==> exists j :: LastAt(c.rdate, r, Length(c, r), c.dtend.Some?, j, x)
  {
    var byStart := RDatesByStart(c.rdate, r, Length(c, r), c.dtend.Some?);
    ByStartHoldsLast(c.rdate, r, Length(c, r), c.dtend.Some?);
    SortMembers(StartsBefore, byStart);
    SortAscends(byStart);
  }

  lemma {:induction false} InsertAscends(x: Instance, s: seq<Instance>)
    requires Ascending(s) && forall y :: y in s ==> y.start != x.start
    ensures Ascending(Insert(StartsBefore, x, s))
  {
    if s == [] || StartsBefore(x, s[0]) {
    } else {
      InsertAscends(x, s[1..]);
      InsertElements(StartsBefore, x, s[1..]);
      var rest := Insert(StartsBefore, x, s[1..]);
      forall j | 0 <= j < |rest|
        ensures s[0].start < rest[j].start
      {
        assert rest[j] in multiset(rest);
        assert rest[j] == x || rest[j] in s[1..];
      }
    }
  }

  lemma {:induction false} SortAscends(byStart: seq<Instance>)
    requires OnePerStart(byStart)
    ensures Ascending(StableSort(StartsBefore, byStart))
  {
    if byStart == [] {
    } else {
      SortAscends(byStart[1..]);
      SortMembers(StartsBefore, byStart[1..]);
      InsertAscends(byStart[0], StableSort(StartsBefore, byStart[1..]));
    }
  }

  // ----- The recurrence set -----

  /** The instants of a walk of wall clocks of the same kind and zone as `dtstart`. */
  function InstantsOf(dtstart: CalendarTime, r: Resolution, walk: Walk): Walk {
    Walk(walk.length, (i: nat) => ToInstantMs(dtstart.(wall := walk.at(i)), r))
  }

  /** What the generator works on: with a rule that starts at `wall`, or DTSTART alone. */
  function SeriesOf(c: Component, r: Resolution, wall: int): Series {
    var walk := if c.rrule.Some? then c.rrule.value.walk(ZoneOf(c.dtstart, r), wall)
                else Walk(Some(1), (i: nat) => c.dtstart.wall);
    var excluded := set i | 0 <= i < |c.exdate| :: ToInstantMs(c.exdate[i], r);
    Series(InstantsOf(c.dtstart, r, walk), c.rrule.Some?, RDateInstances(c, r), excluded, Length(c, r), c.dtend.Some?)
  }

  lemma SeriesWellFormed(c: Component, r: Resolution, wall: int)
    ensures WellFormed(SeriesOf(c, r, wall))
  {
    RDatesAscend(c, r);
  }

  // ----- The jump -----

  function UnitSeconds(freq: Frequency): Option<nat> {
    match freq
    case Secondly => Some(1)
    case Minutely => Some(60)
    case Hourly => Some(3600)
    case Daily => Some(86_400)
    case Weekly => Some(604_800)
    case _ => None
  }

  function PeriodMs(rule: Rule): nat
    requires UnitSeconds(rule.freq).Some?
  {
    UnitSeconds(rule.freq).value * (if rule.interval == 0 then 1 else rule.interval) * 1000
  }

  /** How far a zone may shift: the jump stays that much further away. */
  function Margin(rule: Rule): nat
    requires UnitSeconds(rule.freq).Some?
  {
    if UnitSeconds(rule.freq).value >= 86_400 then DAY_MS else 2 * HOUR_MS
  }

  /** `fastForward`: how many periods the rule's start is moved. */
  function PeriodsSkipped(rule: Rule, dtstartMs: int, skipTo: Option<int>): nat {
    if skipTo.None? || UnitSeconds(rule.freq).None? || rule.count > 0 then 0
    else
      var periods := (skipTo.value - dtstartMs - 2 * PeriodMs(rule) - Margin(rule)) / PeriodMs(rule);
      if periods > 0 then periods else 0
  }

  /** The moved DTSTART. The library adds no hours, minutes or seconds to a DATE. */
  function FastForward(rule: Rule, dtstart: CalendarTime, dtstartMs: int, skipTo: Option<int>): int {
    var periods := PeriodsSkipped(rule, dtstartMs, skipTo);
    if periods == 0 || (dtstart.kind.Date? && UnitSeconds(rule.freq).value < 86_400) then dtstart.wall
    else dtstart.wall + periods * PeriodMs(rule)
  }

  function SkipTo(c: Component, r: Resolution, from: Option<int>): Option<int> {
    if from.Some? then Some(from.value - Length(c, r)) else None
  }

  /** Where `expandOccurrences` starts the rule. */
  function StartingWall(c: Component, r: Resolution, from: Option<int>): int {
    if c.rrule.Some? then FastForward(c.rrule.value, c.dtstart, StartMs(c, r), SkipTo(c, r, from)) else c.dtstart.wall
  }

  function WallOf(o: CalendarObject, r: Resolution, from: Option<int>): int {
    if o.master.Some? then StartingWall(o.master.value, r, from) else 0
  }

  // ----- How far the jump goes -----

  /** One unit of a frequency that has a fixed length, in milliseconds. */
  ghost predicate Lasts(freq: Frequency, ms: nat) {
    || (freq == Secondly && ms == 1_000)
    || (freq == Minutely && ms == 60_000)
    || (freq == Hourly && ms == 3_600_000)
    || (freq == Daily && ms == 86_400_000)
    || (freq == Weekly && ms == 604_800_000)
  }

  /** The rule recurs every `n` units; an INTERVAL it does not have is one. */
  predicate Every(rule: Rule, n: nat) {
    n > 0 && (rule.interval == n || (rule.interval == 0 && n == 1))
  }

  lemma PeriodIs(rule: Rule, n: nat, unit: nat)
    requires Lasts(rule.freq, unit) && Every(rule, n)
    ensures UnitSeconds(rule.freq).Some? && PeriodMs(rule) == n * unit
    ensures Margin(rule) == if unit >= 86_400_000 then 86_400_000 else 7_200_000
  {
  }

  lemma FloorIs(x: int, period: nat)
    requires period > 0
    ensures x / period * period <= x < x / period * period + period
    ensures x / period > 0 <==> x >= period
  {
  }

  /** `k` periods on, and as far as `room` allows. */
  ghost predicate MovedBy(wall: int, moved: int, k: nat, period: nat, room: int) {
    moved == wall + k * period && room - period < k * period <= room
  }

  /** Moved as far as `room` allows, by whole periods; not at all if it allows none. */
  ghost predicate MovedWithin(wall: int, moved: int, period: nat, room: int) {
    if room < period then moved == wall else exists k: nat :: MovedBy(wall, moved, k, period, room)
  }

  lemma MovesByFloor(wall: int, moved: int, period: nat, room: int)
    requires period > 0 && moved == if room / period > 0 then wall + room / period * period else wall
    ensures MovedWithin(wall, moved, period, room)
  {
    FloorIs(room, period);
    if room >= period {
      assert MovedBy(wall, moved, room / period, period, room);
    }
  }

  lemma FastForwardSize(rule: Rule, dtstart: CalendarTime, dtstartMs: int, skipTo: int, period: nat)
    requires UnitSeconds(rule.freq).Some? && PeriodMs(rule) == period > 0
    requires rule.count == 0 && !(dtstart.kind.Date? && UnitSeconds(rule.freq).value < 86_400)
    ensures MovedWithin(dtstart.wall, FastForward(rule, dtstart, dtstartMs, Some(skipTo)), period,
                        skipTo - dtstartMs - 2 * period - Margin(rule))
  {
    MovesByFloor(dtstart.wall, FastForward(rule, dtstart, dtstartMs, Some(skipTo)), period,
                 skipTo - dtstartMs - 2 * period - Margin(rule));
  }

  /** A rule without COUNT is moved as close to the range, less one instance length, as two periods and a margin allow:
      a day for days and weeks, else two hours. A DATE is not moved by hours, minutes or seconds. */
  lemma JumpSize(c: Component, r: Resolution, from: Option<int>, n: nat, unit: nat, period: nat)
    requires c.rrule.Some? && Lasts(c.rrule.value.freq, unit) && Every(c.rrule.value, n) && period == n * unit
    ensures var moved, rule := StartingWall(c, r, from), c.rrule.value;
            if from.None? || rule.count > 0 || (c.dtstart.kind.Date? && unit < 86_400_000) then moved == c.dtstart.wall
            else MovedWithin(c.dtstart.wall, moved, period,
                             from.value - (EndMs(c, r) - StartMs(c, r)) - StartMs(c, r) - 2 * period
                               - if unit >= 86_400_000 then 86_400_000 else 7_200_000)
  {
    var rule := c.rrule.value;
    PeriodIs(rule, n, unit);
    PositivePeriod(n, unit);
    if from.Some? && rule.count == 0 && !(c.dtstart.kind.Date? && unit < 86_400_000) {
      FastForwardSize(rule, c.dtstart, StartMs(c, r), SkipTo(c, r, from).value, period);
    }
  }

  lemma PositivePeriod(n: nat, unit: nat)
    requires n > 0 && unit > 0
    ensures n * unit > 0
  {
  }

  /** Months and years have no fixed length, and DTSTART alone does not recur: neither is moved. */
  lemma NoJump(c: Component, r: Resolution, from: Option<int>)
    requires c.rrule.None? || c.rrule.value.freq in {Monthly, Yearly}
    ensures StartingWall(c, r, from) == c.dtstart.wall
  {
  }

  // ----- The occurrences in a range -----

  function OverrideOccurrences(overrides: seq<Component>, r: Resolution, from: Option<int>,
                               to: Option<int>): seq<Occurrence> {
    if overrides == [] then []
    else
      var n := |overrides| - 1;
      var c := overrides[n];
      var earlier := OverrideOccurrences(overrides[..n], r, from, to);
      if Overlaps(StartMs(c, r), EndMs(c, r), c.dtend.Some?, from, to)
      then earlier + [OccurrenceOf(c, StartMs(c, r), EndMs(c, r), true)]
      else earlier
  }

  predicate Overridden(overrides: seq<Component>, r: Resolution, t: int) {
    exists i :: 0 <= i < |overrides| && overrides[i].recurrenceId.Some?
      && ToInstantMs(overrides[i].recurrenceId.value, r) == t
  }

  /** Instances that count: no override stands in for them and they overlap the range. */
  function Counts(overrides: seq<Component>, r: Resolution, from: Option<int>, to: Option<int>): Instance -> bool {
    (x: Instance) => !Overridden(overrides, r, x.start) && Overlaps(x.start, x.end, x.hasExplicitEnd, from, to)
  }

  /** `kept` are the instances of the set that count, in ascending order. */
  ghost predicate Lists(s: Series, keep: Instance -> bool, kept: seq<Instance>) {
    Ascending(kept) && forall x :: x in kept <==> IsInstance(s, x) && keep(x)
  }

  ghost predicate CountedInstance(c: Component, overrides: seq<Component>, from: Option<int>, to: Option<int>,
                                  r: Resolution, wall: int, y: Instance) {
    IsInstance(SeriesOf(c, r, wall), y) && Counts(overrides, r, from, to)(y)
  }

  function MasterOccurrences(c: Component, kept: seq<Instance>): seq<Occurrence> {
    seq(|kept|, i requires 0 <= i < |kept| => OccurrenceOf(c, kept[i].start, kept[i].end, false))
  }

  function InOrder(overriding: seq<Occurrence>, c: Component, kept: seq<Instance>): seq<Occurrence> {
    StableSort(OccursBefore, overriding + MasterOccurrences(c, kept))
  }

  /** What the expansion of `o` comes to when its rule starts at `wall`: in ascending order the overlapping overrides
      and the overlapping instances no override stands in for; or the limit error if the rule is too long. */
  ghost predicate ExpandsTo(o: CalendarObject, from: Option<int>, to: Option<int>, r: Resolution, limit: nat, wall: int,
                            outcome: Outcome<seq<Occurrence>>) {
    var overriding := OverrideOccurrences(o.overrides, r, from, to);
    if o.master.None? then outcome == Success(StableSort(OccursBefore, overriding))
    else
      var s := SeriesOf(o.master.value, r, wall);
      if Exceeds(s, to, limit) then outcome == LimitExceeded
      else exists kept :: Lists(s, Counts(o.overrides, r, from, to), kept)
                          && outcome == Success(InOrder(overriding, o.master.value, kept))
  }

  /** `expandOccurrences`: it answers or fails even for an endless rule. */
  method ExpandOccurrences(o: CalendarObject, from: Option<int>, to: Option<int>, r: Resolution, limit: nat)
    returns (outcome: Outcome<seq<Occurrence>>)
    ensures ExpandsTo(o, from, to, r, limit, WallOf(o, r, from), outcome)
  {
    var overriddenInstants, results := ExpandOverrides(o.overrides, from, to, r);
    if o.master.None? {
      return Success(StableSort(OccursBefore, results));
    }
    var master := o.master.value;
    outcome := ExpandMaster(master, overriddenInstants, o.overrides, from, to, r, limit, results);
    if outcome.Success? {
      outcome := Success(StableSort(OccursBefore, outcome.value));
    }
  }

  /** The overrides: which instants they stand in for, and those that overlap the range on their own. */
  method ExpandOverrides(overrides: seq<Component>, from: Option<int>, to: Option<int>, r: Resolution)
    returns (overriddenInstants: set<int>, results: seq<Occurrence>)
    ensures forall t :: t in overriddenInstants <==> Overridden(overrides, r, t)
    ensures results == OverrideOccurrences(overrides, r, from, to)
  {
    overriddenInstants, results := {}, [];
    for n := 0 to |overrides|
      invariant forall t :: t in overriddenInstants <==> Overridden(overrides[..n], r, t)
      invariant results == OverrideOccurrences(overrides[..n], r, from, to)
    {
      var override := overrides[n];
      assert overrides[..n + 1][..n] == overrides[..n];
      OverriddenStep(overrides, n, r);
      if override.recurrenceId.Some? {
        overriddenInstants := overriddenInstants + {ToInstantMs(override.recurrenceId.value, r)};
      }
      var start, end := StartMs(override, r), EndMs(override, r);
      if Overlaps(start, end, override.dtend.Some?, from, to) {
        results := results + [OccurrenceOf(override, start, end, true)];
      }
    }
    assert overrides[..|overrides|] == overrides;
  }

  /** The master's instances, up to the end of the range: those that count are added to `before`. */
  method ExpandMaster(master: Component, overriddenInstants: set<int>, ghost overrides: seq<Component>,
                      from: Option<int>, to: Option<int>,
                      r: Resolution, limit: nat, before: seq<Occurrence>)
    returns (outcome: Outcome<seq<Occurrence>>)
    requires forall t :: t in overriddenInstants <==> Overridden(overrides, r, t)
    ensures var s := SeriesOf(master, r, StartingWall(master, r, from));
            if Exceeds(s, to, limit) then outcome == LimitExceeded
            else exists kept :: Lists(s, Counts(overrides, r, from, to), kept)
                                && outcome == Success(before + MasterOccurrences(master, kept))
  {
    var s := SeriesOf(master, r, StartingWall(master, r, from));
    SeriesWellFormed(master, r, StartingWall(master, r, from));
    var collected := Collect(s, to, limit);
    if collected.LimitExceeded? {
      return LimitExceeded;
    }
    var results := AddCounting(master, collected.value, overriddenInstants, overrides, from, to, r, before);
    ghost var kept :| Picked(Counts(overrides, r, from, to), collected.value, |collected.value|, kept)
                      && results == before + MasterOccurrences(master, kept);
    PickedAreListed(s, to, collected.value, Counts(overrides, r, from, to), kept);
    return Success(results);
  }

  method AddCounting(master: Component, instances: seq<Instance>, overriddenInstants: set<int>,
                     ghost overrides: seq<Component>,
                     from: Option<int>, to: Option<int>, ghost r: Resolution, before: seq<Occurrence>)
    returns (results: seq<Occurrence>)
    requires forall t :: t in overriddenInstants <==> Overridden(overrides, r, t)
    ensures exists kept :: Picked(Counts(overrides, r, from, to), instances, |instances|, kept)
                           && results == before + MasterOccurrences(master, kept)
  {
    results := before;
    ghost var kept: seq<Instance> := [];
    ghost var keep := Counts(overrides, r, from, to);
    for n := 0 to |instances|
      invariant Picked(keep, instances, n, kept)
      invariant results == before + MasterOccurrences(master, kept)
    {
      var x := instances[n];
      PickStep(keep, instances, n, kept);
      if x.start !in overriddenInstants && Overlaps(x.start, x.end, x.hasExplicitEnd, from, to) {
        results := results + [OccurrenceOf(master, x.start, x.end, false)];
        kept := kept + [x];
      }
    }
  }

  lemma OverriddenStep(overrides: seq<Component>, n: nat, r: Resolution)
    requires n < |overrides|
    ensures forall t :: Overridden(overrides[..n + 1], r, t) <==>
                          Overridden(overrides[..n], r, t)
                          || (overrides[n].recurrenceId.Some? && ToInstantMs(overrides[n].recurrenceId.value, r) == t)
  {
    var shorter, longer := overrides[..n], overrides[..n + 1];
    assert longer == shorter + [overrides[n]];
    forall t
      ensures Overridden(longer, r, t) <==>
                Overridden(shorter, r, t)
                  || (overrides[n].recurrenceId.Some? && ToInstantMs(overrides[n].recurrenceId.value, r) == t)
    {
      if Overridden(shorter, r, t) {
        var i :| 0 <= i < n && shorter[i].recurrenceId.Some? && ToInstantMs(shorter[i].recurrenceId.value, r) == t;
        assert longer[i] == shorter[i];
      }
      assert longer[n] == overrides[n];
    }
  }

  /** `kept` are those of the first `n` instances that count. */
  ghost predicate Picked(keep: Instance -> bool, instances: seq<Instance>, n: nat, kept: seq<Instance>) {
    && n <= |instances|
    && (Ascending(instances) ==> Ascending(kept))
    && (forall x :: x in kept <==> x in instances[..n] && keep(x))
  }

  lemma PickStep(keep: Instance -> bool, instances: seq<Instance>, n: nat, kept: seq<Instance>)
    requires n < |instances| && Picked(keep, instances, n, kept)
    ensures Picked(keep, instances, n + 1, if keep(instances[n]) then kept + [instances[n]] else kept)
  {
    assert instances[..n + 1] == instances[..n] + [instances[n]];
    if Ascending(instances) {
      forall x | x in kept
        ensures x.start < instances[n].start
      {
        assert x in instances[..n];
      }
    }
  }

  lemma PickedAreListed(s: Series, to: Option<int>, instances: seq<Instance>, keep: Instance -> bool,
                        kept: seq<Instance>)
    requires WellFormed(s) && Enumerates(s, to, instances) && Picked(keep, instances, |instances|, kept)
    requires forall x :: keep(x) ==> Before(x.start, to)
    ensures Lists(s, keep, kept)
  {
    assert instances[..|instances|] == instances;
    forall x | IsInstance(s, x) && keep(x)
      ensures x in instances
    {
      assert Yielded(instances, x.start);
      var k :| 0 <= k < |instances| && instances[k].start == x.start;
      OneInstanceEach(s, x, instances[k]);
    }
  }

  /** The set has one instance at a time. */
  lemma OneInstanceEach(s: Series, x: Instance, y: Instance)
    requires WellFormed(s) && IsInstance(s, x) && IsInstance(s, y) && x.start == y.start
    ensures x == y
  {
  }

  // ----- The expansion is determined -----

  lemma {:induction false} SameAt(a: seq<Instance>, b: seq<Instance>, i: nat)
    requires Ascending(a) && Ascending(b) && i < |a| && forall x :: x in a <==> x in b
    ensures i < |b| && a[i] == b[i]
  {
    forall j | 0 <= j < i
      ensures j < |b| && a[j] == b[j]
    {
      SameAt(a, b, j);
    }
    assert a[i] in b;
    var k :| 0 <= k < |b| && b[k] == a[i];
    assert k >= i;
    assert b[i] in a;
    var l :| 0 <= l < |a| && a[l] == b[i];
    assert l >= i;
  }

  lemma AscendingUnique(a: seq<Instance>, b: seq<Instance>)
    requires Ascending(a) && Ascending(b) && forall x :: x in a <==> x in b
    ensures a == b
  {
    forall i | 0 <= i < |a|
      ensures i < |b| && a[i] == b[i]
    {
      SameAt(a, b, i);
    }
    if |a| > 0 {
      SameAt(a, b, |a| - 1);
    }
    if |b| > 0 {
      SameAt(b, a, |b| - 1);
    }
  }

  /** There is one answer, order included. */
  lemma ExpansionIsUnique(o: CalendarObject, from: Option<int>, to: Option<int>, r: Resolution, limit: nat, wall: int,
                          a: Outcome<seq<Occurrence>>, b: Outcome<seq<Occurrence>>)
    requires ExpandsTo(o, from, to, r, limit, wall, a) && ExpandsTo(o, from, to, r, limit, wall, b)
    ensures a == b
  {
    if o.master.Some? && !Exceeds(SeriesOf(o.master.value, r, wall), to, limit) {
      var s, keep := SeriesOf(o.master.value, r, wall), Counts(o.overrides, r, from, to);
      var overriding := OverrideOccurrences(o.overrides, r, from, to);
      var x :| Lists(s, keep, x) && a == Success(InOrder(overriding, o.master.value, x));
      var y :| Lists(s, keep, y) && b == Success(InOrder(overriding, o.master.value, y));
      AscendingUnique(x, y);
    }
  }

  // ----- Within the budget there is an answer -----

  /** Where the walk must stop, counted in elements of the rule. */
  lemma WalkIsBounded(s: Series, to: Option<int>, limit: nat) returns (n: nat)
    requires WellFormed(s) && !Exceeds(s, to, limit)
    ensures forall i: nat :: Record(s, i) && Before(s.rule.at(i), to) ==> i < n
  {
    if !s.counted {
      n := s.rule.length.value;
    } else {
      n := limit;
      assert s.rule.Has(limit) ==> limit > 0 && StoppedBefore(s, to, limit - 1);
    }
  }

  lemma {:induction false} Gather(s: Series, keep: Instance -> bool, candidates: seq<Instance>)
      returns (gathered: seq<Instance>)
    requires WellFormed(s)
    ensures OnePerStart(gathered)
    ensures forall x :: x in gathered <==> x in candidates && IsInstance(s, x) && keep(x)
  {
    if candidates == [] {
      gathered := [];
    } else {
      var n := |candidates| - 1;
      var x := candidates[n];
      gathered := Gather(s, keep, candidates[..n]);
      assert candidates == candidates[..n] + [x];
      if IsInstance(s, x) && keep(x) {
        PutKeeps(gathered, x);
        forall y | y in gathered && y.start == x.start
          ensures y == x
        {
          OneInstanceEach(s, x, y);
        }
        gathered := Put(gathered, x);
      }
    }
  }

  lemma CanBeListed(s: Series, to: Option<int>, limit: nat, keep: Instance -> bool)
    requires WellFormed(s) && !Exceeds(s, to, limit) && forall x :: keep(x) ==> Before(x.start, to)
    ensures exists kept :: Lists(s, keep, kept)
  {
    var n := WalkIsBounded(s, to, limit);
    var drawn := seq(n, (i: int) requires 0 <= i < n => s.FromRule(i));
    var gathered := Gather(s, keep, drawn + s.rdates);
    SortAscends(gathered);
    SortMembers(StartsBefore, gathered);
    forall x | IsInstance(s, x) && keep(x)
      ensures x in drawn + s.rdates
    {
      if FromTheRule(s, x.start) {
        var i: nat :| Record(s, i) && s.rule.at(i) == x.start;
        assert drawn[i] == x;
      }
    }
    assert Lists(s, keep, StableSort(StartsBefore, gathered));
  }

  /** The walk from where `expandOccurrences` starts it stays within the budget. */
  ghost predicate Answers(o: CalendarObject, from: Option<int>, to: Option<int>, r: Resolution, limit: nat) {
    o.master.Some? ==> !Exceeds(SeriesOf(o.master.value, r, WallOf(o, r, from)), to, limit)
  }

  lemma AnswersExactlyWithinBudget(o: CalendarObject, from: Option<int>, to: Option<int>, r: Resolution, limit: nat)
    ensures Answers(o, from, to, r, limit)
            <==> exists occurrences :: ExpandsTo(o, from, to, r, limit, WallOf(o, r, from), Success(occurrences))
  {
    if o.master.Some? && Answers(o, from, to, r, limit) {
      var s, keep := SeriesOf(o.master.value, r, WallOf(o, r, from)), Counts(o.overrides, r, from, to);
      SeriesWellFormed(o.master.value, r, WallOf(o, r, from));
      CanBeListed(s, to, limit, keep);
      var kept :| Lists(s, keep, kept);
      assert ExpandsTo(o, from, to, r, limit, WallOf(o, r, from),
                       Success(InOrder(OverrideOccurrences(o.overrides, r, from, to), o.master.value, kept)));
    } else if o.master.None? {
      assert ExpandsTo(o, from, to, r, limit, WallOf(o, r, from),
                       Success(StableSort(OccursBefore, OverrideOccurrences(o.overrides, r, from, to))));
    }
  }

  // ----- The jump changes nothing -----

  /** `later` is `walk` without its first `m` elements, which all lie before `bound`. */
  ghost predicate TailFrom(walk: Walk, later: Walk, m: nat, bound: int) {
    && (forall i: nat :: later.Has(i) <==> walk.Has(i + m))
    && (forall i: nat :: later.Has(i) ==> later.at(i) == walk.at(i + m))
    && (forall j :: 0 <= j < m && walk.Has(j) ==> walk.at(j) < bound)
  }

  /** Started `k` periods later, the rule yields the tail of what it yields from `wall`; the `m` it
      leaves out are those before, and at most those of two periods more. */
  ghost predicate MovesTo(rule: Rule, zone: Option<string>, wall: int, k: nat, m: nat)
    requires UnitSeconds(rule.freq).Some?
  {
    TailFrom(rule.walk(zone, wall), rule.walk(zone, wall + k * PeriodMs(rule)), m,
             wall + k * PeriodMs(rule) + 2 * PeriodMs(rule))
  }

  ghost predicate HasNoMemory(rule: Rule, zone: Option<string>, wall: int, k: nat)
    requires UnitSeconds(rule.freq).Some?
  {
    exists m :: MovesTo(rule, zone, wall, k, m)
  }

  function InstantAt(c: Component, r: Resolution, wall: int): int {
    ToInstantMs(c.dtstart.(wall := wall), r)
  }

  /** The rule's wall clocks, or DTSTART's. */
  function WholeWalk(c: Component, r: Resolution): Walk {
    if c.rrule.Some? then c.rrule.value.walk(ZoneOf(c.dtstart, r), c.dtstart.wall)
    else Walk(Some(1), (i: nat) => c.dtstart.wall)
  }

  /** What the jump relies on: a rule without memory, and a zone that shifts by no more than the margin
      over the rule's own wall clocks. */
  ghost predicate MayJump(c: Component, r: Resolution) {
    c.rrule.Some? && c.rrule.value.count == 0 && UnitSeconds(c.rrule.value.freq).Some? ==>
      && (forall k :: HasNoMemory(c.rrule.value, ZoneOf(c.dtstart, r), c.dtstart.wall, k))
      && (forall i :: WholeWalk(c, r).Has(i) ==>
            InstantAt(c, r, WholeWalk(c, r).at(i))
              <= WholeWalk(c, r).at(i) + StartMs(c, r) - c.dtstart.wall + Margin(c.rrule.value))
  }

  /** A rule without further parts: it recurs every `period` milliseconds from wherever it starts. */
  ghost predicate Ticks(rule: Rule, zone: Option<string>, period: nat) {
    forall wall, i: nat :: rule.walk(zone, wall).Has(i) && rule.walk(zone, wall).at(i) == wall + i * period
  }

  lemma TicksShifted(wall: int, i: nat, k: nat, period: nat)
    ensures (wall + k * period) + i * period == wall + (i + k) * period
  {
  }

  lemma TicksBefore(j: nat, m: nat, period: nat)
    requires j < m && period > 0
    ensures j * period < m * period
  {
  }

  lemma TicksMove(rule: Rule, zone: Option<string>, wall: int, k: nat, period: nat)
    requires Ticks(rule, zone, period) && period > 0
    ensures TailFrom(rule.walk(zone, wall), rule.walk(zone, wall + k * period), k, wall + k * period + 2 * period)
  {
    var walk, later := rule.walk(zone, wall), rule.walk(zone, wall + k * period);
    forall i: nat
      ensures later.Has(i) && walk.Has(i + k) && later.at(i) == walk.at(i + k)
    {
      TicksShifted(wall, i, k, period);
    }
    forall j: nat | j < k
      ensures walk.at(j) < wall + k * period + 2 * period
    {
      TicksBefore(j, k, period);
    }
  }

  /** Such a rule of any of the five frequencies has no memory, whatever its INTERVAL. */
  lemma PlainRuleHasNoMemory(rule: Rule, zone: Option<string>, wall: int, n: nat, unit: nat, k: nat)
    requires Lasts(rule.freq, unit) && Every(rule, n) && Ticks(rule, zone, n * unit)
    ensures UnitSeconds(rule.freq).Some? && HasNoMemory(rule, zone, wall, k)
  {
    PeriodIs(rule, n, unit);
    PositivePeriod(n, unit);
    TicksMove(rule, zone, wall, k, PeriodMs(rule));
    assert MovesTo(rule, zone, wall, k, k);
  }

  /** So it may jump in any zone of a fixed offset. */
  lemma PlainRuleMayJump(c: Component, r: Resolution, n: nat, unit: nat, offset: int)
    requires c.rrule.Some? && Lasts(c.rrule.value.freq, unit) && Every(c.rrule.value, n)
    requires Ticks(c.rrule.value, ZoneOf(c.dtstart, r), n * unit)
    requires forall wall :: InstantAt(c, r, wall) == wall - offset
    ensures MayJump(c, r)
  {
    forall k: nat
      ensures UnitSeconds(c.rrule.value.freq).Some?
              && HasNoMemory(c.rrule.value, ZoneOf(c.dtstart, r), c.dtstart.wall, k)
    {
      PlainRuleHasNoMemory(c.rrule.value, ZoneOf(c.dtstart, r), c.dtstart.wall, n, unit, k);
    }
    assert InstantAt(c, r, c.dtstart.wall) == StartMs(c, r);
  }

  /** No PERIOD lies on an instant of the rule. */
  ghost predicate NoPeriodOnTheRule(c: Component, r: Resolution) {
    forall j :: 0 <= j < |c.rdate| && (c.rdate[j].end.Some? || c.rdate[j].duration.Some?) ==>
                  !OnTheRule(SeriesOf(c, r, c.dtstart.wall), ToInstantMs(c.rdate[j].start, r))
  }

  lemma PlainRDatesAgree(c: Component, r: Resolution)
    requires NoPeriodOnTheRule(c, r)
    ensures RDatesAgree(SeriesOf(c, r, c.dtstart.wall))
  {
    var s := SeriesOf(c, r, c.dtstart.wall);
    RDatesAscend(c, r);
    forall k | 0 <= k < |s.rdates| && OnTheRule(s, s.rdates[k].start)
      ensures s.rdates[k] == Instance(s.rdates[k].start, s.rdates[k].start + s.length, s.hasExplicitEnd)
    {
      assert s.rdates[k] in RDateInstances(c, r);
      var j :| LastAt(c.rdate, r, Length(c, r), c.dtend.Some?, j, s.rdates[k]);
    }
  }

  lemma FloorTimes(x: int, period: nat)
    requires period > 0
    ensures x / period * period <= x
  {
  }

  /** The jump stays two periods and the margin away from what matters. */
  lemma JumpStaysClear(rule: Rule, dtstartMs: int, skipTo: Option<int>)
    requires PeriodsSkipped(rule, dtstartMs, skipTo) > 0
    ensures skipTo.Some? && rule.count == 0 && UnitSeconds(rule.freq).Some?
    ensures dtstartMs + PeriodsSkipped(rule, dtstartMs, skipTo) * PeriodMs(rule) + 2 * PeriodMs(rule) + Margin(rule)
            <= skipTo.value
  {
    FloorTimes(skipTo.value - dtstartMs - 2 * PeriodMs(rule) - Margin(rule), PeriodMs(rule));
  }

  /** The elements the jump leaves out all start before `skipTo`. */
  lemma JumpLeavesOut(c: Component, r: Resolution, from: Option<int>) returns (m: nat)
    requires MayJump(c, r) && StartingWall(c, r, from) != c.dtstart.wall
    ensures from.Some?
    ensures LeavesOut(SeriesOf(c, r, c.dtstart.wall), SeriesOf(c, r, StartingWall(c, r, from)), m,
                      from.value - Length(c, r))
  {
    var rule, zone, wall, skipTo := c.rrule.value, ZoneOf(c.dtstart, r), c.dtstart.wall, SkipTo(c, r, from);
    var k := PeriodsSkipped(rule, StartMs(c, r), skipTo);
    JumpStaysClear(rule, StartMs(c, r), skipTo);
    assert HasNoMemory(rule, zone, wall, k);
    m :| MovesTo(rule, zone, wall, k, m);
    var walk, later := rule.walk(zone, wall), rule.walk(zone, wall + k * PeriodMs(rule));
    var plain, jumped := SeriesOf(c, r, wall), SeriesOf(c, r, StartingWall(c, r, from));
    forall j | 0 <= j < m && plain.rule.Has(j)
      ensures plain.rule.at(j) < skipTo.value
    {
      var w := walk.at(j);
      assert WholeWalk(c, r).Has(j);
      assert InstantAt(c, r, w) <= w + StartMs(c, r) - wall + Margin(rule);
      assert plain.rule.at(j) == InstantAt(c, r, w);
    }
    forall i: nat
      ensures jumped.rule.Has(i) <==> plain.rule.Has(i + m)
      ensures jumped.rule.Has(i) ==> jumped.rule.at(i) == plain.rule.at(i + m)
    {
      assert later.Has(i) <==> walk.Has(i + m);
    }
  }

  lemma EarlyInstancesDoNotCount(c: Component, overrides: seq<Component>, r: Resolution, from: Option<int>,
                                 to: Option<int>, wall: int)
    requires from.Some?
    ensures Ignores(Counts(overrides, r, from, to), SeriesOf(c, r, wall), from.value - Length(c, r))
  {
  }

  /** No RDATE that counts in the range is displaced by an instant of the rule only before or only after the jump. */
  ghost predicate JumpIsHarmless(c: Component, overrides: seq<Component>, from: Option<int>, to: Option<int>,
                                 r: Resolution) {
    NoRDateShows(SeriesOf(c, r, c.dtstart.wall), SeriesOf(c, r, StartingWall(c, r, from)),
                 Counts(overrides, r, from, to))
  }

  ghost predicate CountTheSame(c: Component, overrides: seq<Component>, from: Option<int>, to: Option<int>,
                               r: Resolution) {
    forall x :: CountedInstance(c, overrides, from, to, r, StartingWall(c, r, from), x)
                <==> CountedInstance(c, overrides, from, to, r, c.dtstart.wall, x)
  }

  /** From the moved start the same instances count as from DTSTART, exactly if the jump is harmless. */
  lemma JumpCountsTheSame(c: Component, overrides: seq<Component>, from: Option<int>, to: Option<int>, r: Resolution)
    requires MayJump(c, r)
    ensures CountTheSame(c, overrides, from, to, r) <==> JumpIsHarmless(c, overrides, from, to, r)
  {
    if StartingWall(c, r, from) != c.dtstart.wall {
      var plain, jumped := SeriesOf(c, r, c.dtstart.wall), SeriesOf(c, r, StartingWall(c, r, from));
      var keep := Counts(overrides, r, from, to);
      var m := JumpLeavesOut(c, r, from);
      EarlyInstancesDoNotCount(c, overrides, r, from, to, c.dtstart.wall);
      JumpKeepsInstances(plain, jumped, m, from.value - Length(c, r), keep);
      if forall x :: keep(x) ==> (IsInstance(plain, x) <==> IsInstance(jumped, x)) {
        assert CountTheSame(c, overrides, from, to, r);
      } else {
        var x :| keep(x) && (IsInstance(plain, x) <==> !IsInstance(jumped, x));
        assert CountedInstance(c, overrides, from, to, r, StartingWall(c, r, from), x)
          <==> !CountedInstance(c, overrides, from, to, r, c.dtstart.wall, x);
      }
    }
  }

  /** Without a PERIOD on the rule the jump is harmless in every range. */
  lemma NoPeriodNoHarm(c: Component, overrides: seq<Component>, from: Option<int>, to: Option<int>, r: Resolution)
    requires MayJump(c, r) && NoPeriodOnTheRule(c, r)
    ensures JumpIsHarmless(c, overrides, from, to, r)
  {
    if StartingWall(c, r, from) != c.dtstart.wall {
      var plain, jumped := SeriesOf(c, r, c.dtstart.wall), SeriesOf(c, r, StartingWall(c, r, from));
      var m := JumpLeavesOut(c, r, from);
      PlainRDatesAgree(c, r);
      EarlyInstancesDoNotCount(c, overrides, r, from, to, c.dtstart.wall);
      AgreeingRDatesDoNotShow(plain, jumped, m, from.value - Length(c, r), Counts(overrides, r, from, to));
    }
  }

  /** A PERIOD that counts in the range, and that the walk from DTSTART drops for the rule's instance at its start,
      which the jump leaves out. */
  ghost predicate BroughtBack(c: Component, overrides: seq<Component>, from: Option<int>, to: Option<int>,
                              r: Resolution, y: Instance) {
    ComesBack(SeriesOf(c, r, c.dtstart.wall), SeriesOf(c, r, StartingWall(c, r, from)), y)
      && Counts(overrides, r, from, to)(y)
  }

  /** What counts after the jump and not before is what was brought back by it. */
  lemma CountedAfterJump(c: Component, overrides: seq<Component>, from: Option<int>, to: Option<int>, r: Resolution,
                         y: Instance)
    requires MayJump(c, r)
    ensures CountedInstance(c, overrides, from, to, r, StartingWall(c, r, from), y)
              && !CountedInstance(c, overrides, from, to, r, c.dtstart.wall, y)
            <==> BroughtBack(c, overrides, from, to, r, y)
  {
    if StartingWall(c, r, from) != c.dtstart.wall && Counts(overrides, r, from, to)(y) {
      var m := JumpLeavesOut(c, r, from);
      EarlyInstancesDoNotCount(c, overrides, r, from, to, c.dtstart.wall);
      JumpAddsWhatComesBack(SeriesOf(c, r, c.dtstart.wall), SeriesOf(c, r, StartingWall(c, r, from)), m,
                            from.value - Length(c, r), Counts(overrides, r, from, to), y);
    }
  }

  /** Where the jump is harmless, walking from the moved start lists what walking from DTSTART does; so wherever
      the walk from DTSTART answers within its budget, it is the same answer. */
  lemma FastForwardRefines(o: CalendarObject, from: Option<int>, to: Option<int>, r: Resolution, limit: nat)
    requires o.master.Some? && MayJump(o.master.value, r) && JumpIsHarmless(o.master.value, o.overrides, from, to, r)
    requires from.Some? && to.Some? ==> from.value - Length(o.master.value, r) <= to.value
    ensures var c := o.master.value;
            var plain, jumped := SeriesOf(c, r, c.dtstart.wall), SeriesOf(c, r, StartingWall(c, r, from));
            var keep := Counts(o.overrides, r, from, to);
            && (forall kept :: Lists(jumped, keep, kept) <==> Lists(plain, keep, kept))
            && (Exceeds(jumped, to, limit) ==> Exceeds(plain, to, limit))
    ensures var c := o.master.value;
            !Exceeds(SeriesOf(c, r, c.dtstart.wall), to, limit) ==>
              forall outcome :: ExpandsTo(o, from, to, r, limit, StartingWall(c, r, from), outcome)
                                <==> ExpandsTo(o, from, to, r, limit, c.dtstart.wall, outcome)
  {
    var c := o.master.value;
    JumpCountsTheSame(c, o.overrides, from, to, r);
    var plain, jumped := SeriesOf(c, r, c.dtstart.wall), SeriesOf(c, r, StartingWall(c, r, from));
    var keep := Counts(o.overrides, r, from, to);
    forall x | keep(x)
      ensures IsInstance(plain, x) <==> IsInstance(jumped, x)
    {
      assert CountedInstance(c, o.overrides, from, to, r, StartingWall(c, r, from), x)
        <==> CountedInstance(c, o.overrides, from, to, r, c.dtstart.wall, x);
    }
    if StartingWall(c, r, from) != c.dtstart.wall {
      var m := JumpLeavesOut(c, r, from);
      JumpExceedsNoSooner(plain, jumped, m, from.value - Length(c, r), to, limit);
    }
  }

  /** Where it is not harmless, some instance that counts is listed by one walk only. */
  lemma HarmfulJumpDiffers(o: CalendarObject, from: Option<int>, to: Option<int>, r: Resolution, jumped: seq<Instance>,
                           plain: seq<Instance>)
    requires o.master.Some? && MayJump(o.master.value, r) && !JumpIsHarmless(o.master.value, o.overrides, from, to, r)
    requires Lists(SeriesOf(o.master.value, r, StartingWall(o.master.value, r, from)), Counts(o.overrides, r, from, to),
                   jumped)
    requires Lists(SeriesOf(o.master.value, r, o.master.value.dtstart.wall), Counts(o.overrides, r, from, to), plain)
    ensures jumped != plain
  {
    var c := o.master.value;
    JumpCountsTheSame(c, o.overrides, from, to, r);
    var x :| CountedInstance(c, o.overrides, from, to, r, StartingWall(c, r, from), x)
             <==> !CountedInstance(c, o.overrides, from, to, r, c.dtstart.wall, x);
    assert x in jumped <==> x !in plain;
  }

  // ----- Where an instant of the rule is lost -----

  /** Three times, every 45 minutes from 01:45. */
  function EveryThreeQuarters(): Component {
    var rule := Rule(Minutely, 45, 3, None,
                     (zone: Option<string>, wall: int) => Walk(Some(3), (i: nat) => wall + i * 45 * MINUTE_MS));
    Component(CalendarTime(Zoned, 105 * MINUTE_MS, Some("Gap")), None, None, false, Some(rule), [], [], None, Opaque,
              None)
  }

  /** A zone that skips the time from 02:00 to 03:00, read by the rule of RFC 5545. */
  function SpringGap(): Resolution {
    Resolution((tzid: string, wall: int) => CalendarZones.RuleOffset(wall, HOUR_MS, 3600, 7200), None)
  }

  /** The second wall clock, 02:30, is skipped and read as 01:30 UTC; the third, 03:15, is 01:15 UTC. It is an instant
      of the rule that nothing excludes, and not in the set. */
  lemma LateInstantIsLost()
    ensures var s, late := SeriesOf(EveryThreeQuarters(), SpringGap(), 105 * MINUTE_MS), 75 * MINUTE_MS;
            && s.rule.at(0) == 45 * MINUTE_MS && s.rule.at(1) == 90 * MINUTE_MS && s.rule.at(2) == late
            && OnTheRule(s, late) && late !in s.excluded && !InSet(s, late)
  {
    var c, r := EveryThreeQuarters(), SpringGap();
    var s, walk := SeriesOf(c, r, 105 * MINUTE_MS), c.rrule.value.walk(Some("Gap"), 105 * MINUTE_MS);
    assert walk.at(0) == 105 * MINUTE_MS && walk.at(1) == 150 * MINUTE_MS && walk.at(2) == 195 * MINUTE_MS;
    assert s.rule.at(0) == InstantAt(c, r, 105 * MINUTE_MS);
    assert s.rule.at(1) == InstantAt(c, r, 150 * MINUTE_MS);
    assert s.rule.at(2) == InstantAt(c, r, 195 * MINUTE_MS);
    assert s.rule.Has(2) && s.rdates == [];
  }

  // ----- What the occurrences are -----

  /** `x` is an override that overlaps the range. */
  ghost predicate IsOverride(o: CalendarObject, from: Option<int>, to: Option<int>, r: Resolution, x: Occurrence) {
    exists i :: 0 <= i < |o.overrides| && OverrideOverlaps(o.overrides[i], from, to, r, x)
  }

  ghost predicate OverrideOverlaps(c: Component, from: Option<int>, to: Option<int>, r: Resolution, x: Occurrence) {
    x == OccurrenceOf(c, StartMs(c, r), EndMs(c, r), true) && Overlaps(x.start, x.end, c.dtend.Some?, from, to)
  }

  /** `x` is an instance of the master's set that counts. */
  ghost predicate IsOfMaster(o: CalendarObject, from: Option<int>, to: Option<int>, r: Resolution, wall: int,
                             x: Occurrence) {
    o.master.Some? && exists y :: CountedInstance(o.master.value, o.overrides, from, to, r, wall, y)
                                  && x == OccurrenceOf(o.master.value, y.start, y.end, false)
  }

  lemma {:induction false} OverridesAre(overrides: seq<Component>, from: Option<int>, to: Option<int>, r: Resolution)
    ensures forall x :: x in OverrideOccurrences(overrides, r, from, to)
                        <==> exists i :: 0 <= i < |overrides| && OverrideOverlaps(overrides[i], from, to, r, x)
  {
    if overrides == [] {
    } else {
      var n := |overrides| - 1;
      OverridesAre(overrides[..n], from, to, r);
      assert forall i :: 0 <= i < n ==> overrides[..n][i] == overrides[i];
      forall x
        ensures x in OverrideOccurrences(overrides, r, from, to)
                <==> exists i :: 0 <= i < |overrides| && OverrideOverlaps(overrides[i], from, to, r, x)
      {
        if i :| 0 <= i < n && OverrideOverlaps(overrides[i], from, to, r, x) {
          assert overrides[..n][i] == overrides[i];
        }
      }
    }
  }

  /** The answer, element by element: the overlapping overrides and the instances that count, in ascending order. */
  lemma OccurrencesAre(o: CalendarObject, from: Option<int>, to: Option<int>, r: Resolution, limit: nat, wall: int,
                       occurrences: seq<Occurrence>)
    requires ExpandsTo(o, from, to, r, limit, wall, Success(occurrences))
    ensures Ordered(OccursBefore, occurrences)
    ensures forall x :: x in occurrences <==> IsOverride(o, from, to, r, x) || IsOfMaster(o, from, to, r, wall, x)
  {
    OverridesAre(o.overrides, from, to, r);
    var overriding := OverrideOccurrences(o.overrides, r, from, to);
    if o.master.None? {
      SortMembers(OccursBefore, overriding);
      SortOrders(OccursBefore, overriding);
    } else {
      var c := o.master.value;
      var s, keep := SeriesOf(c, r, wall), Counts(o.overrides, r, from, to);
      var kept :| Lists(s, keep, kept) && Success(occurrences) == Success(InOrder(overriding, c, kept));
      SortMembers(OccursBefore, overriding + MasterOccurrences(c, kept));
      SortOrders(OccursBefore, overriding + MasterOccurrences(c, kept));
      forall x
        ensures x in MasterOccurrences(c, kept) <==> IsOfMaster(o, from, to, r, wall, x)
      {
        if x in MasterOccurrences(c, kept) {
          var k :| 0 <= k < |kept| && MasterOccurrences(c, kept)[k] == x;
          assert kept[k] in kept && CountedInstance(c, o.overrides, from, to, r, wall, kept[k]);
        }
        if IsOfMaster(o, from, to, r, wall, x) {
          var y :| CountedInstance(c, o.overrides, from, to, r, wall, y) && x == OccurrenceOf(c, y.start, y.end, false);
          assert y in kept;
          var k :| 0 <= k < |kept| && kept[k] == y;
          assert MasterOccurrences(c, kept)[k] == x;
        }
      }
    }
  }

  // ----- The answer in the terms of the event -----

  /** Section 9.9 of RFC 4791: it starts before the range ends, and ends after the range starts; or it is a point
      without an explicit end, at the very start of the range. */
  predicate InRange(start: int, end: int, hasExplicitEnd: bool, from: Option<int>, to: Option<int>) {
    && (to.None? || start < to.value)
    && (from.None? || from.value < end || (start == end == from.value && !hasExplicitEnd))
  }

  /** The wall clocks of the rule, or DTSTART's. */
  function WalkFrom(c: Component, r: Resolution, wall: int): Walk {
    if c.rrule.Some? then c.rrule.value.walk(ZoneOf(c.dtstart, r), wall)
    else Walk(Some(1), (i: nat) => c.dtstart.wall)
  }

  /** Element `i` of the rule starts at `t`, later than all before it. */
  ghost predicate RuleReaches(c: Component, r: Resolution, wall: int, i: nat, t: int) {
    && WalkFrom(c, r, wall).Has(i)
    && t == ToInstantMs(c.dtstart.(wall := WalkFrom(c, r, wall).at(i)), r)
    && forall j :: 0 <= j < i ==> ToInstantMs(c.dtstart.(wall := WalkFrom(c, r, wall).at(j)), r) < t
  }

  /** `y` is what RDATE `j` stands for: a PERIOD brings its own end, any other takes over the master's length. Of
      several at one instant it is the last. */
  ghost predicate RDateGives(c: Component, r: Resolution, j: nat, y: Instance)
    requires j < |c.rdate|
  {
    var d := c.rdate[j];
    && y.start == ToInstantMs(d.start, r)
    && (d.end.Some? ==> y.end == ToInstantMs(d.end.value, r) && y.hasExplicitEnd)
    && (d.end.None? && d.duration.Some? ==> y.end == y.start + d.duration.value && y.hasExplicitEnd)
    && (d.end.None? && d.duration.None? ==>
          y.end == y.start + EndMs(c, r) - StartMs(c, r) && (y.hasExplicitEnd <==> c.dtend.Some?))
    && forall i :: j < i < |c.rdate| ==> ToInstantMs(c.rdate[i].start, r) != y.start
  }

  /** The recurrence set in the event's own terms: not at an EXDATE; from the rule with the master's length, or else
      from an RDATE. */
  ghost predicate InstanceOf(c: Component, r: Resolution, wall: int, y: Instance) {
    && (forall i :: 0 <= i < |c.exdate| ==> ToInstantMs(c.exdate[i], r) != y.start)
    && if exists i :: RuleReaches(c, r, wall, i, y.start)
       then y.end == y.start + EndMs(c, r) - StartMs(c, r) && (y.hasExplicitEnd <==> c.dtend.Some?)
       else exists j :: 0 <= j < |c.rdate| && RDateGives(c, r, j, y)
  }

  lemma ReachedByTheRule(c: Component, r: Resolution, wall: int, t: int)
    ensures FromTheRule(SeriesOf(c, r, wall), t) <==> exists i :: RuleReaches(c, r, wall, i, t)
  {
    var s := SeriesOf(c, r, wall);
    forall i: nat
      ensures Record(s, i) && s.rule.at(i) == t <==> RuleReaches(c, r, wall, i, t)
    {
      assert s.rule.Has(i) <==> WalkFrom(c, r, wall).Has(i);
      assert forall j: nat :: s.rule.at(j) == ToInstantMs(c.dtstart.(wall := WalkFrom(c, r, wall).at(j)), r);
    }
  }

  lemma GivenByAnRDate(c: Component, r: Resolution, y: Instance)
    ensures y in RDateInstances(c, r) <==> exists j :: 0 <= j < |c.rdate| && RDateGives(c, r, j, y)
  {
    RDatesAscend(c, r);
    forall j: nat | j < |c.rdate|
      ensures LastAt(c.rdate, r, Length(c, r), c.dtend.Some?, j, y) <==> RDateGives(c, r, j, y)
    {
    }
  }

  lemma InstancesAre(c: Component, r: Resolution, wall: int, y: Instance)
    ensures IsInstance(SeriesOf(c, r, wall), y) <==> InstanceOf(c, r, wall, y)
  {
    var s := SeriesOf(c, r, wall);
    ReachedByTheRule(c, r, wall, y.start);
    GivenByAnRDate(c, r, y);
    InRDates(s, y);
    assert y.start in s.excluded <==> exists i :: 0 <= i < |c.exdate| && ToInstantMs(c.exdate[i], r) == y.start;
  }

  /** `x` shows a component at these times: its own transparency, status and kind of day. */
  predicate Shows(x: Occurrence, c: Component, start: int, end: int, isOverride: bool) {
    && x.start == start && x.end == end && x.isOverride == isOverride
    && x.isAllDay == c.isAllDay && x.transparency == c.transparency && x.status == c.status
  }

  /** Override `i` in the range, at its own time. */
  predicate OverrideShows(o: CalendarObject, from: Option<int>, to: Option<int>, r: Resolution, i: nat, x: Occurrence)
    requires i < |o.overrides|
  {
    var c := o.overrides[i];
    Shows(x, c, StartMs(c, r), EndMs(c, r), true) && InRange(x.start, x.end, c.dtend.Some?, from, to)
  }

  /** Instance `y` in the range, for which no override stands in. */
  ghost predicate InstanceShows(o: CalendarObject, from: Option<int>, to: Option<int>, r: Resolution, y: Instance,
                                x: Occurrence) {
    && o.master.Some? && Shows(x, o.master.value, y.start, y.end, false)
    && InstanceOf(o.master.value, r, WallOf(o, r, from), y)
    && InRange(y.start, y.end, y.hasExplicitEnd, from, to)
    && forall i :: 0 <= i < |o.overrides| && o.overrides[i].recurrenceId.Some? ==>
         ToInstantMs(o.overrides[i].recurrenceId.value, r) != y.start
  }

  lemma OverridesShown(o: CalendarObject, from: Option<int>, to: Option<int>, r: Resolution, x: Occurrence)
    ensures IsOverride(o, from, to, r, x)
            <==> exists i :: 0 <= i < |o.overrides| && OverrideShows(o, from, to, r, i, x)
  {
    forall i | 0 <= i < |o.overrides|
      ensures OverrideOverlaps(o.overrides[i], from, to, r, x) <==> OverrideShows(o, from, to, r, i, x)
    {
    }
  }

  lemma InstancesShown(o: CalendarObject, from: Option<int>, to: Option<int>, r: Resolution, x: Occurrence)
    ensures IsOfMaster(o, from, to, r, WallOf(o, r, from), x) <==> exists y :: InstanceShows(o, from, to, r, y, x)
  {
    if o.master.Some? {
      forall y
        ensures CountedInstance(o.master.value, o.overrides, from, to, r, WallOf(o, r, from), y)
                  && x == OccurrenceOf(o.master.value, y.start, y.end, false)
                <==> InstanceShows(o, from, to, r, y, x)
      {
        InstancesAre(o.master.value, r, WallOf(o, r, from), y);
      }
    }
  }

  /** What `expandOccurrences` answers, told by the event's own fields. */
  lemma AnswerIs(o: CalendarObject, from: Option<int>, to: Option<int>, r: Resolution, limit: nat,
                 occurrences: seq<Occurrence>, x: Occurrence)
    requires ExpandsTo(o, from, to, r, limit, WallOf(o, r, from), Success(occurrences))
    ensures x in occurrences <==>
              || (exists i :: 0 <= i < |o.overrides| && OverrideShows(o, from, to, r, i, x))
              || (exists y :: InstanceShows(o, from, to, r, y, x))
  {
    OccurrencesAre(o, from, to, r, limit, WallOf(o, r, from), occurrences);
    OverridesShown(o, from, to, r, x);
    InstancesShown(o, from, to, r, x);
  }

  // ----- The end of the recurrence -----

  function Later(latest: Option<int>, end: int): Option<int> {
    if latest.Some? && latest.value > end then latest else Some(end)
  }

  /** `untilBound`. */
  function UntilBound(c: Component, r: Resolution): Option<int> {
    if c.rrule.None? || c.rrule.value.until.None? then None
    else Some(ToInstantMs(c.rrule.value.until.value, r) + Length(c, r) + DAY_MS)
  }

  /** The rule as walked from DTSTART. */
  function WholeSeries(c: Component, r: Resolution): Series {
    SeriesOf(c, r, c.dtstart.wall)
  }

  ghost predicate TooLong(c: Component, r: Resolution) {
    Exceeds(WholeSeries(c, r), None, MAX_SPAN_INSTANCES)
  }

  /** No end can be told: neither COUNT nor UNTIL, or a COUNT too long to walk. */
  ghost predicate WithoutEnd(o: CalendarObject, r: Resolution) {
    o.master.Some? && RecursWithoutEnd(o.master.value, r)
  }

  ghost predicate RecursWithoutEnd(c: Component, r: Resolution) {
    c.rrule.Some? && (!c.rrule.value.IsFinite() || (TooLong(c, r) && c.rrule.value.until.None?))
  }

  /** One of the ends the span is made of. */
  ghost predicate IsAnEnd(o: CalendarObject, r: Resolution, t: int) {
    || (exists i :: 0 <= i < |o.overrides| && EndMs(o.overrides[i], r) == t)
    || (o.master.Some? && IsAnEndOf(o.master.value, r, t))
  }

  ghost predicate IsAnEndOf(c: Component, r: Resolution, t: int) {
    || EndMs(c, r) == t
    || (if TooLong(c, r) then UntilBound(c, r) == Some(t) || (exists x :: x in RDateInstances(c, r) && x.end == t)
        else exists x :: IsInstance(WholeSeries(c, r), x) && x.end == t)
  }

  /** The latest of all. */
  ghost predicate SpanEndsAt(o: CalendarObject, r: Resolution, t: int) {
    IsAnEnd(o, r, t) && forall u :: IsAnEnd(o, r, u) ==> u <= t
  }

  method LatestEnd(instances: seq<Instance>, before: Option<int>) returns (latest: Option<int>)
    ensures forall x :: x in instances ==> latest.Some? && x.end <= latest.value
    ensures before.Some? ==> latest.Some? && before.value <= latest.value
    ensures latest != before ==> exists x :: x in instances && latest == Some(x.end)
  {
    latest := before;
    for n := 0 to |instances|
      invariant forall x :: x in instances[..n] ==> latest.Some? && x.end <= latest.value
      invariant before.Some? ==> latest.Some? && before.value <= latest.value
      invariant latest != before ==> exists x :: x in instances[..n] && latest == Some(x.end)
    {
      assert instances[..n + 1] == instances[..n] + [instances[n]];
      latest := Later(latest, instances[n].end);
    }
    assert instances[..|instances|] == instances;
  }

  method LatestOverrideEnd(overrides: seq<Component>, r: Resolution) returns (latest: Option<int>)
    ensures latest.None? <==> overrides == []
    ensures forall i :: 0 <= i < |overrides| ==> EndMs(overrides[i], r) <= latest.value
    ensures latest.Some? ==> exists i :: 0 <= i < |overrides| && EndMs(overrides[i], r) == latest.value
  {
    latest := None;
    for n := 0 to |overrides|
      invariant latest.None? <==> n == 0
      invariant forall i :: 0 <= i < n ==> EndMs(overrides[i], r) <= latest.value
      invariant latest.Some? ==> exists i :: 0 <= i < n && EndMs(overrides[i], r) == latest.value
    {
      latest := Later(latest, EndMs(overrides[n], r));
    }
  }

  lemma AllInstances(s: Series, instances: seq<Instance>)
    requires WellFormed(s) && Enumerates(s, None, instances)
    ensures forall x :: x in instances <==> IsInstance(s, x)
  {
    forall x | IsInstance(s, x)
      ensures x in instances
    {
      assert Yielded(instances, x.start);
      var k :| 0 <= k < |instances| && instances[k].start == x.start;
      OneInstanceEach(s, x, instances[k]);
    }
  }

  /** The master's part of the span; the walk fails for a rule that is too long. */
  method LatestMasterEnd(c: Component, r: Resolution, before: Option<int>) returns (latest: Option<int>)
    ensures latest.None? <==> RecursWithoutEnd(c, r)
    ensures latest.Some? ==> latest == before || IsAnEndOf(c, r, latest.value)
    ensures latest.Some? ==> forall t :: Some(t) == before || IsAnEndOf(c, r, t) ==> t <= latest.value
  {
    latest := Later(before, EndMs(c, r));
    if c.rrule.Some? && !c.rrule.value.IsFinite() {
      return None;
    }
    SeriesWellFormed(c, r, c.dtstart.wall);
    var walked := Collect(WholeSeries(c, r), None, MAX_SPAN_INSTANCES);
    if walked.Success? {
      AllInstances(WholeSeries(c, r), walked.value);
      latest := LatestEnd(walked.value, latest);
      return latest;
    }
    var bound := UntilBound(c, r);
    if bound.None? {
      return None;
    }
    latest := Later(latest, bound.value);
    latest := LatestEnd(RDateInstances(c, r), latest);
  }

  /** `computeRecurrenceSpanEnd`: no end, or the latest there is. A VEVENT has a component to take it from. */
  method ComputeRecurrenceSpanEnd(o: CalendarObject, r: Resolution) returns (spanEnd: Option<int>)
    requires o.master.Some? || o.overrides != []
    ensures spanEnd.None? <==> WithoutEnd(o, r)
    ensures spanEnd.Some? ==> SpanEndsAt(o, r, spanEnd.value)
  {
    spanEnd := LatestOverrideEnd(o.overrides, r);
    if o.master.Some? {
      spanEnd := LatestMasterEnd(o.master.value, r, spanEnd);
    }
  }

  /** The rule starts nothing later than a day after its UNTIL: the day is for zone shifts. */
  ghost predicate UntilHonoured(c: Component, r: Resolution) {
    c.rrule.Some? && c.rrule.value.until.Some? ==>
      forall i :: WholeSeries(c, r).rule.Has(i) ==>
        WholeSeries(c, r).rule.at(i) <= ToInstantMs(c.rrule.value.until.value, r) + DAY_MS
  }

  /** However far the walk got, the span end is no earlier than the end of any instance. */
  lemma SpanEndBoundsInstances(o: CalendarObject, r: Resolution, t: int, x: Instance)
    requires o.master.Some? && !WithoutEnd(o, r) && SpanEndsAt(o, r, t)
    requires TooLong(o.master.value, r) ==> UntilHonoured(o.master.value, r)
    requires IsInstance(WholeSeries(o.master.value, r), x)
    ensures x.end <= t
  {
    var c := o.master.value;
    var s := WholeSeries(c, r);
    if !TooLong(c, r) {
      assert IsAnEnd(o, r, x.end);
    } else if FromTheRule(s, x.start) {
      var i :| Record(s, i) && s.rule.at(i) == x.start;
      assert IsAnEnd(o, r, UntilBound(c, r).value);
    } else {
      assert IsAnEnd(o, r, x.end);
    }
  }

  /** A rule with COUNT that keeps to it can be walked to its end for the span up to 10,000 times, and beyond that has
      no end that could be told; a query without an end can walk it up to 20,000 times. */
  lemma HowLongIsTooLong(o: CalendarObject, from: Option<int>, r: Resolution, n: nat)
    requires o.master.Some? && o.master.value.rrule.Some?
    requires o.master.value.rrule.value.count == n > 0 && o.master.value.rrule.value.until.None?
    requires o.master.value.rrule.value.walk(ZoneOf(o.master.value.dtstart, r), o.master.value.dtstart.wall).length
             == Some(n)
    ensures WithoutEnd(o, r) <==> n > 10_000
    ensures Answers(o, from, None, r, MAX_RECURRENCE_INSTANCES) <==> n <= 20_000
  {
  }

  /** A rule too long to walk ends by its UNTIL, an instance length and a day; nothing else of the event ends later than
      the span, and the span is one of these ends. */
  lemma LongRuleSpan(o: CalendarObject, r: Resolution, t: int)
    requires o.master.Some? && TooLong(o.master.value, r) && SpanEndsAt(o, r, t)
    requires o.master.value.rrule.Some? && o.master.value.rrule.value.until.Some?
    ensures var c := o.master.value;
            var bound := ToInstantMs(c.rrule.value.until.value, r) + EndMs(c, r) - StartMs(c, r) + 86_400_000;
            && bound <= t && EndMs(c, r) <= t && (forall i :: 0 <= i < |o.overrides| ==> EndMs(o.overrides[i], r) <= t)
            && (forall y :: y in RDateInstances(c, r) ==> y.end <= t)
            && (t == bound || t == EndMs(c, r) || (exists i :: 0 <= i < |o.overrides| && EndMs(o.overrides[i], r) == t)
                || (exists y :: y in RDateInstances(c, r) && y.end == t))
  {
    var c := o.master.value;
    assert IsAnEnd(o, r, UntilBound(c, r).value) && IsAnEnd(o, r, EndMs(c, r));
    forall i | 0 <= i < |o.overrides|
      ensures EndMs(o.overrides[i], r) <= t
    {
      assert IsAnEnd(o, r, EndMs(o.overrides[i], r));
    }
    forall y | y in RDateInstances(c, r)
      ensures y.end <= t
    {
      assert IsAnEnd(o, r, y.end);
    }
  }

  /** Whatever range is asked for in the same reading, no occurrence ends after the span, exactly if none of the
      PERIODs that the jump brings back does. */
  lemma SpanEndBoundsOccurrences(o: CalendarObject, from: Option<int>, to: Option<int>, r: Resolution, limit: nat,
                                 occurrences: seq<Occurrence>, t: int)
    requires o.master.Some? ==>
               MayJump(o.master.value, r) && (TooLong(o.master.value, r) ==> UntilHonoured(o.master.value, r))
    requires !WithoutEnd(o, r) && SpanEndsAt(o, r, t)
    requires ExpandsTo(o, from, to, r, limit, WallOf(o, r, from), Success(occurrences))
    ensures (forall x :: x in occurrences ==> x.end <= t)
            <==> (o.master.Some? ==>
                    forall y :: BroughtBack(o.master.value, o.overrides, from, to, r, y) ==> y.end <= t)
  {
    OccurrencesAre(o, from, to, r, limit, WallOf(o, r, from), occurrences);
    if o.master.Some? {
      forall y
        ensures CountedInstance(o.master.value, o.overrides, from, to, r, WallOf(o, r, from), y) ==>
                  y.end <= t || BroughtBack(o.master.value, o.overrides, from, to, r, y)
      {
        CountedWithinSpan(o, from, to, r, t, y);
      }
      if y :| BroughtBack(o.master.value, o.overrides, from, to, r, y) && y.end > t {
        CountedAfterJump(o.master.value, o.overrides, from, to, r, y);
        assert IsOfMaster(o, from, to, r, WallOf(o, r, from), OccurrenceOf(o.master.value, y.start, y.end, false));
        assert OccurrenceOf(o.master.value, y.start, y.end, false) in occurrences;
      }
    }
    forall x | x in occurrences && IsOverride(o, from, to, r, x)
      ensures x.end <= t
    {
      assert IsAnEnd(o, r, x.end);
    }
  }

  lemma CountedWithinSpan(o: CalendarObject, from: Option<int>, to: Option<int>, r: Resolution, t: int, y: Instance)
    requires o.master.Some? && MayJump(o.master.value, r)
    requires TooLong(o.master.value, r) ==> UntilHonoured(o.master.value, r)
    requires !WithoutEnd(o, r) && SpanEndsAt(o, r, t)
    ensures CountedInstance(o.master.value, o.overrides, from, to, r, WallOf(o, r, from), y) ==>
              y.end <= t || BroughtBack(o.master.value, o.overrides, from, to, r, y)
  {
    var c := o.master.value;
    CountedAfterJump(c, o.overrides, from, to, r, y);
    if CountedInstance(c, o.overrides, from, to, r, c.dtstart.wall, y) {
      SpanEndBoundsInstances(o, r, t, y);
    }
  }

  // ----- Where the jump does change the answer -----

  /** How many days from `wall` on lie, where clocks are `east` ahead of UTC, not after `until`. */
  function DaysUntil(until: int, east: int, wall: int): nat {
    if until + east < wall then 0 else (until + east - wall) / DAY_MS + 1
  }

  /** Every day at nine, from that of the epoch on, with an UNTIL; the zone it is read in, if any, is `east` of UTC. */
  function DailyUntil(kind: TimeKind, until: int, east: int, rdate: seq<RecurrenceDate>): Component {
    var walk := (zone: Option<string>, wall: int) =>
        Walk(Some(DaysUntil(until, if zone.Some? then east else 0, wall)), (i: nat) => wall + i * DAY_MS);
    Component(CalendarTime(kind, 9 * HOUR_MS, None), None, None, false,
              Some(Rule(Daily, 1, 0, Some(CalendarTime(Utc, until, None)), walk)), rdate, [], None, Opaque, None)
  }

  /** Every zone, or none but UTC, is `east` of UTC in this reading. */
  ghost predicate ReadsEast(kind: TimeKind, r: Resolution, east: int) {
    (kind.Utc? || kind.Floating?) && forall wall :: OffsetMs(CalendarTime(kind, wall, None), r) == east
  }

  /** What the zone adds to the rule's UNTIL is what it takes from the instants. */
  ghost predicate DailyIn(c: Component, kind: TimeKind, until: int, east: int, rdate: seq<RecurrenceDate>,
                          r: Resolution, offset: int) {
    && c == DailyUntil(kind, until, east, rdate) && ReadsEast(kind, r, offset)
    && offset == if ZoneOf(c.dtstart, r).Some? then east else 0
  }

  lemma DaysCounted(until: int, east: int, wall: int, i: nat)
    ensures i < DaysUntil(until, east, wall) <==> wall + i * DAY_MS - east <= until
  {
    if until + east >= wall {
      var x := until + east - wall;
      assert x == x / DAY_MS * DAY_MS + x % DAY_MS;
    }
  }

  lemma DailyWalk(kind: TimeKind, until: int, east: int, rdate: seq<RecurrenceDate>, zone: Option<string>, wall: int,
                  i: nat)
    ensures var walk := DailyUntil(kind, until, east, rdate).rrule.value.walk(zone, wall);
            && (walk.Has(i) <==> wall + i * DAY_MS - (if zone.Some? then east else 0) <= until)
            && walk.at(i) == wall + i * DAY_MS
  {
    DaysCounted(until, if zone.Some? then east else 0, wall, i);
  }

  lemma DailySeries(c: Component, kind: TimeKind, until: int, east: int, rdate: seq<RecurrenceDate>, r: Resolution,
                    offset: int, wall: int, i: nat)
    requires DailyIn(c, kind, until, east, rdate, r, offset)
    ensures var s := SeriesOf(c, r, wall);
            && (s.rule.Has(i) <==> wall + i * DAY_MS - offset <= until)
            && s.rule.at(i) == wall + i * DAY_MS - offset
  {
    DailyWalk(kind, until, east, rdate, ZoneOf(c.dtstart, r), wall, i);
    assert OffsetMs(CalendarTime(kind, wall + i * DAY_MS, None), r) == offset;
  }

  /** Every element is a record. */
  lemma DailyFromTheRule(c: Component, kind: TimeKind, until: int, east: int, rdate: seq<RecurrenceDate>, r: Resolution,
                         offset: int, wall: int, t: int)
    requires DailyIn(c, kind, until, east, rdate, r, offset)
    ensures FromTheRule(SeriesOf(c, r, wall), t) <==> exists i: nat :: t == wall + i * DAY_MS - offset <= until
  {
    var s := SeriesOf(c, r, wall);
    forall i: nat
      ensures (s.rule.Has(i) <==> wall + i * DAY_MS - offset <= until) && s.rule.at(i) == wall + i * DAY_MS - offset
    {
      DailySeries(c, kind, until, east, rdate, r, offset, wall, i);
    }
    if i: nat :| t == wall + i * DAY_MS - offset <= until {
      assert Record(s, i) && s.rule.at(i) == t;
    }
  }

  lemma DailyHasNoMemory(kind: TimeKind, until: int, east: int, rdate: seq<RecurrenceDate>, zone: Option<string>,
                         wall: int, k: nat)
    ensures HasNoMemory(DailyUntil(kind, until, east, rdate).rrule.value, zone, wall, k)
  {
    var rule := DailyUntil(kind, until, east, rdate).rrule.value;
    assert PeriodMs(rule) == DAY_MS;
    var walk, later := rule.walk(zone, wall), rule.walk(zone, wall + k * DAY_MS);
    forall i: nat
      ensures (later.Has(i) <==> walk.Has(i + k)) && later.at(i) == walk.at(i + k)
      ensures walk.at(i) == wall + i * DAY_MS
    {
      DailyWalk(kind, until, east, rdate, zone, wall + k * DAY_MS, i);
      DailyWalk(kind, until, east, rdate, zone, wall, i + k);
      DailyWalk(kind, until, east, rdate, zone, wall, i);
    }
    assert MovesTo(rule, zone, wall, k, k);
  }

  lemma DailyMayJump(c: Component, kind: TimeKind, until: int, east: int, rdate: seq<RecurrenceDate>, r: Resolution,
                     offset: int)
    requires DailyIn(c, kind, until, east, rdate, r, offset)
    ensures MayJump(c, r)
  {
    forall k: nat
      ensures HasNoMemory(c.rrule.value, ZoneOf(c.dtstart, r), c.dtstart.wall, k)
    {
      DailyHasNoMemory(kind, until, east, rdate, ZoneOf(c.dtstart, r), c.dtstart.wall, k);
    }
    forall i: nat
      ensures InstantAt(c, r, WholeWalk(c, r).at(i)) == WholeWalk(c, r).at(i) + StartMs(c, r) - c.dtstart.wall
    {
      assert OffsetMs(CalendarTime(kind, WholeWalk(c, r).at(i), None), r) == offset;
      assert OffsetMs(CalendarTime(kind, c.dtstart.wall, None), r) == offset;
    }
  }

  // Nine o'clock on the first and the second day, the last that an UNTIL before the third leaves.
  const FIRST := 9 * HOUR_MS
  const SECOND := 33 * HOUR_MS
  const THIRD := 57 * HOUR_MS

  /** Read as UTC, the span ends with the second day, if every RDATE coincides with the rule. */
  lemma DailySpan(c: Component, kind: TimeKind, until: int, east: int, rdate: seq<RecurrenceDate>, r: Resolution)
    requires DailyIn(c, kind, until, east, rdate, r, 0) && SECOND <= until < THIRD
    requires forall j :: 0 <= j < |rdate| ==> ToInstantMs(rdate[j].start, r) in {FIRST, SECOND}
    ensures !TooLong(c, r) && !WithoutEnd(CalendarObject(Some(c), []), r)
    ensures SpanEndsAt(CalendarObject(Some(c), []), r, SECOND)
  {
    var o, s := CalendarObject(Some(c), []), WholeSeries(c, r);
    assert OffsetMs(CalendarTime(kind, FIRST, None), r) == 0;
    DailySeries(c, kind, until, east, rdate, r, 0, FIRST, MAX_SPAN_INSTANCES);
    forall t
      ensures FromTheRule(s, t) <==> t in {FIRST, SECOND}
    {
      DailyFromTheRule(c, kind, until, east, rdate, r, 0, FIRST, t);
      assert FIRST + 0 * DAY_MS == FIRST && FIRST + 1 * DAY_MS == SECOND;
    }
    RDatesAscend(c, r);
    forall x | x in s.rdates
      ensures FromTheRule(s, x.start)
    {
      assert x in RDateInstances(c, r);
      var j: nat :| LastAt(rdate, r, Length(c, r), false, j, x);
    }
    assert FromTheRule(s, SECOND) && IsInstance(s, Instance(SECOND, SECOND, false));
    assert IsAnEnd(o, r, SECOND);
  }

  /** A hundred days from `start`. */
  function HundredDays(start: CalendarTime): RecurrenceDate {
    RecurrenceDate(start, None, Some(100 * DAY_MS))
  }

  lemma OnePeriod(c: Component, kind: TimeKind, until: int, east: int, start: CalendarTime, r: Resolution)
    requires c == DailyUntil(kind, until, east, [HundredDays(start)])
    ensures var t := ToInstantMs(start, r); RDateInstances(c, r) == [Instance(t, t + 100 * DAY_MS, true)]
  {
    var only := RDateInstance(c.rdate[0], r, Length(c, r), false);
    assert c.rdate[..0] == [];
    assert RDatesByStart(c.rdate, r, Length(c, r), false)
        == Put(RDatesByStart(c.rdate[..0], r, Length(c, r), false), only);
    SortOfOrdered(StartsBefore, [only]);
  }

  /** Nothing of the rule is left after a jump to day 50. */
  lemma DailyIsOver(c: Component, kind: TimeKind, until: int, east: int, rdate: seq<RecurrenceDate>, r: Resolution,
                    offset: int, i: nat)
    requires DailyIn(c, kind, until, east, rdate, r, offset)
    requires SECOND <= until < THIRD && -12 * HOUR_MS <= offset <= 14 * HOUR_MS
    ensures !SeriesOf(c, r, StartingWall(c, r, Some(50 * DAY_MS))).rule.Has(i)
  {
    var rule := c.rrule.value;
    assert OffsetMs(CalendarTime(kind, FIRST, None), r) == offset;
    assert StartMs(c, r) == FIRST - offset && Length(c, r) == 0;
    assert PeriodsSkipped(rule, StartMs(c, r), Some(50 * DAY_MS)) >= 45;
    var wall := StartingWall(c, r, Some(50 * DAY_MS));
    assert wall >= FIRST + 45 * DAY_MS;
    DailySeries(c, kind, until, east, rdate, r, offset, wall, i);
  }

  /** In UTC, with a PERIOD of a hundred days on the first day: from DTSTART the rule's instance displaces it, and the
      span ends with the second day. A jump to day 50 leaves the rule's instances out, and there it is, still going
      on. */
  lemma PeriodOnTheRuleShows(r: Resolution)
    ensures var c := DailyUntil(Utc, SECOND, 0, [HundredDays(CalendarTime(Utc, FIRST, None))]);
            var x, from := Instance(FIRST, FIRST + 100 * DAY_MS, true), Some(50 * DAY_MS);
            && MayJump(c, r) && BroughtBack(c, [], from, None, r, x) && !JumpIsHarmless(c, [], from, None, r)
            && CountedInstance(c, [], from, None, r, StartingWall(c, r, from), x)
            && !CountedInstance(c, [], from, None, r, c.dtstart.wall, x)
            && !TooLong(c, r) && SpanEndsAt(CalendarObject(Some(c), []), r, SECOND) && x.end > SECOND
  {
    var start := CalendarTime(Utc, FIRST, None);
    var rdate := [HundredDays(start)];
    var c := DailyUntil(Utc, SECOND, 0, rdate);
    assert DailyIn(c, Utc, SECOND, 0, rdate, r, 0);
    DailyMayJump(c, Utc, SECOND, 0, rdate, r, 0);
    DailySpan(c, Utc, SECOND, 0, rdate, r);
    PeriodComesBack(c, Utc, SECOND, 0, start, r, 0);
  }

  /** Whatever the zone, a PERIOD on the rule comes back. */
  lemma PeriodComesBack(c: Component, kind: TimeKind, until: int, east: int, start: CalendarTime, r: Resolution,
                        offset: int)
    requires DailyIn(c, kind, until, east, [HundredDays(start)], r, offset)
    requires SECOND <= until < THIRD && -12 * HOUR_MS <= offset <= 14 * HOUR_MS
    requires start == CalendarTime(kind, FIRST, None)
    ensures var x, from := Instance(FIRST - offset, FIRST - offset + 100 * DAY_MS, true), Some(50 * DAY_MS);
            && BroughtBack(c, [], from, None, r, x) && !JumpIsHarmless(c, [], from, None, r)
            && CountedInstance(c, [], from, None, r, StartingWall(c, r, from), x)
            && !CountedInstance(c, [], from, None, r, c.dtstart.wall, x)
  {
    var x, from := Instance(FIRST - offset, FIRST - offset + 100 * DAY_MS, true), Some(50 * DAY_MS);
    var rdate := [HundredDays(start)];
    assert OffsetMs(start, r) == offset;
    OnePeriod(c, kind, until, east, start, r);
    DailyFromTheRule(c, kind, until, east, rdate, r, offset, FIRST, FIRST - offset);
    assert FIRST + 0 * DAY_MS - offset == FIRST - offset;
    forall i: nat
      ensures !SeriesOf(c, r, StartingWall(c, r, from)).rule.Has(i)
    {
      DailyIsOver(c, kind, until, east, rdate, r, offset, i);
    }
    assert x in RDateInstances(c, r);
    DailyMayJump(c, kind, until, east, rdate, r, offset);
    CountedAfterJump(c, [], from, None, r, x);
    assert Length(c, r) == 0;
  }
}
