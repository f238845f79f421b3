/** The time-range index of calendar objects and the prefilter it serves
    (packages/core/src/caldav/index-calendar-object.ts, packages/core/src/caldav/calendar-query-report.ts).

    The index is computed with floating times and dates read as UTC; a query reads them in a zone of its choice.
    The prefilter widens the range by the offsets a zone can have, and so never hides an object that matches, but for
    one of which all that matches went astray between the two readings. */
module TimeRangeIndexing {
  import opened CalendarTimes
  import opened QueryPaging
  import opened RecurrenceExpansion
  import opened RecurrenceSet
  import opened Sequences
  import opened Wrappers

  /** `FLOATING_TIME_OFFSET_BOUNDS_MS`. */
  const EARLIEST := -12 * HOUR_MS
  const LATEST := 14 * HOUR_MS

  datatype TimeRangeIndex = TimeRangeIndex(
    dtstart: int,
    dtend: int,
    isAllDay: bool,
    recurrenceSpanEnd: Option<int>,
    transparency: Transparency,
    status: Option<Status>)

  // ----- Computing the index -----

  function ComponentsOf(o: CalendarObject): seq<Component> {
    (if o.master.Some? then [o.master.value] else []) + o.overrides
  }

  /** The first of the components that start earliest. */
  ghost predicate FirstEarliest(components: seq<Component>, r: Resolution, k: int) {
    && 0 <= k < |components|
    && (forall i :: 0 <= i < |components| ==> StartMs(components[k], r) <= StartMs(components[i], r))
    && (forall i :: 0 <= i < k ==> StartMs(components[k], r) < StartMs(components[i], r))
  }

  /** The component that describes the object: the master, or the earliest override. */
  ghost predicate IsReference(o: CalendarObject, r: Resolution, c: Component) {
    if o.master.Some? then c == o.master.value
    else exists k :: FirstEarliest(o.overrides, r, k) && c == o.overrides[k]
  }

  /** One of the starts the index is made of. */
  ghost predicate IsAStart(o: CalendarObject, r: Resolution, t: int) {
    || (exists i :: 0 <= i < |ComponentsOf(o)| && StartMs(ComponentsOf(o)[i], r) == t)
    || (o.master.Some? && exists j :: 0 <= j < |o.master.value.rdate|
                                      && ToInstantMs(o.master.value.rdate[j].start, r) == t)
  }

  ghost predicate StartsAt(o: CalendarObject, r: Resolution, t: int) {
    IsAStart(o, r, t) && forall u :: IsAStart(o, r, u) ==> t <= u
  }

  ghost predicate Describes(index: TimeRangeIndex, c: Component, r: Resolution) {
    index.dtend == EndMs(c, r) && index.isAllDay == c.isAllDay && index.transparency == c.transparency
      && index.status == c.status
  }

  /** `index` is the index of `o` in the reading `r`. */
  ghost predicate Indexes(o: CalendarObject, r: Resolution, index: TimeRangeIndex) {
    && StartsAt(o, r, index.dtstart)
    && (index.recurrenceSpanEnd.None? <==> WithoutEnd(o, r))
    && (index.recurrenceSpanEnd.Some? ==> SpanEndsAt(o, r, index.recurrenceSpanEnd.value))
    && exists c :: IsReference(o, r, c) && Describes(index, c, r)
  }

  /** `computeTimeRangeIndex` of an event. */
  method ComputeTimeRangeIndex(o: CalendarObject, r: Resolution) returns (index: TimeRangeIndex)
    requires o.master.Some? || o.overrides != []
    ensures Indexes(o, r, index)
  {
    var components := ComponentsOf(o);
    var earliest, k := components[0], 0;
    var earliestStart := StartMs(earliest, r);
    for n := 0 to |components|
      invariant 0 <= k < |components| && (n == 0 ==> k == 0) && (n > 0 ==> k < n)
      invariant earliest == components[k] && earliestStart == StartMs(components[k], r)
      invariant forall i :: 0 <= i < n ==> earliestStart <= StartMs(components[i], r)
      invariant forall i :: 0 <= i < k ==> earliestStart < StartMs(components[i], r)
    {
      var start := StartMs(components[n], r);
      if start < earliestStart {
        earliest, earliestStart, k := components[n], start, n;
      }
    }
    assert FirstEarliest(components, r, k);
    assert o.master.None? ==> components == o.overrides;
    var reference := if o.master.Some? then o.master.value else earliest;
    assert IsReference(o, r, reference);
    var dtstart := EarliestStart(o, r, earliestStart);
    var spanEnd := ComputeRecurrenceSpanEnd(o, r);
    index := TimeRangeIndex(dtstart, EndMs(reference, r), reference.isAllDay, spanEnd, reference.transparency,
                            reference.status);
    assert Describes(index, reference, r);
  }

  /** An RDATE may lie before everything else. */
  method EarliestStart(o: CalendarObject, r: Resolution, earliestStart: int) returns (dtstart: int)
    requires exists i :: 0 <= i < |ComponentsOf(o)| && StartMs(ComponentsOf(o)[i], r) == earliestStart
    requires forall i :: 0 <= i < |ComponentsOf(o)| ==> earliestStart <= StartMs(ComponentsOf(o)[i], r)
    ensures StartsAt(o, r, dtstart)
  {
    dtstart := earliestStart;
    var rdate := if o.master.Some? then o.master.value.rdate else [];
    for j := 0 to |rdate|
      invariant IsAStart(o, r, dtstart) && dtstart <= earliestStart
      invariant forall i :: 0 <= i < j ==> dtstart <= ToInstantMs(rdate[i].start, r)
    {
      var start := ToInstantMs(rdate[j].start, r);
      dtstart := if start < dtstart then start else dtstart;
    }
  }

  /** The columns of an event with a master, by its own fields: nothing of it starts before `dtstart`, and the rest is
      the master's. */
  lemma ColumnsAre(o: CalendarObject, r: Resolution, index: TimeRangeIndex)
    requires o.master.Some? && Indexes(o, r, index)
    ensures var c := o.master.value;
            && index.dtend == EndMs(c, r) && index.isAllDay == c.isAllDay
            && index.transparency == c.transparency && index.status == c.status
            && index.dtstart <= StartMs(c, r)
            && (forall i :: 0 <= i < |o.overrides| ==> index.dtstart <= StartMs(o.overrides[i], r))
            && (forall j :: 0 <= j < |c.rdate| ==> index.dtstart <= ToInstantMs(c.rdate[j].start, r))
            && (index.dtstart == StartMs(c, r)
                || (exists i :: 0 <= i < |o.overrides| && index.dtstart == StartMs(o.overrides[i], r))
                || (exists j :: 0 <= j < |c.rdate| && index.dtstart == ToInstantMs(c.rdate[j].start, r)))
  {
    assert ComponentsOf(o)[0] == o.master.value;
    assert forall i :: 0 <= i < |o.overrides| ==> ComponentsOf(o)[i + 1] == o.overrides[i];
    assert IsAStart(o, r, StartMs(ComponentsOf(o)[0], r));
    forall i | 0 <= i < |o.overrides|
      ensures index.dtstart <= StartMs(o.overrides[i], r)
    {
      assert IsAStart(o, r, StartMs(ComponentsOf(o)[i + 1], r));
    }
    forall j | 0 <= j < |o.master.value.rdate|
      ensures index.dtstart <= ToInstantMs(o.master.value.rdate[j].start, r)
    {
      assert IsAStart(o, r, ToInstantMs(o.master.value.rdate[j].start, r));
    }
  }

  // ----- The two readings -----

  /** The reading the index is computed in. */
  function Stored(r: Resolution): Resolution {
    r.(floatingTimeZone := None)
  }

  predicate DependsOnReading(t: CalendarTime) {
    t.kind.Floating? || t.kind.Date?
  }

  /** How much later `t` is stored than the query reads it: the offset of the query's zone. */
  function ReadingShift(t: CalendarTime, r: Resolution): int {
    if DependsOnReading(t) then OffsetMs(t, r) else 0
  }

  /** How much longer an instance of the master is stored than the query reads it. */
  function Stretch(c: Component, r: Resolution): int {
    Length(c, Stored(r)) - Length(c, r)
  }

  lemma StoredIsShifted(t: CalendarTime, r: Resolution)
    ensures ToInstantMs(t, Stored(r)) == ToInstantMs(t, r) + ReadingShift(t, r)
  {
  }

  /** The time from which a component's end is read, if it is not DTSTART. */
  function EndTime(c: Component): CalendarTime {
    if c.dtend.Some? then c.dtend.value
    else if c.duration.None? && c.dtstart.kind.Date? then AddWallDays(c.dtstart, 1)
    else c.dtstart
  }

  lemma EndIsShifted(c: Component, r: Resolution)
    ensures EndMs(c, Stored(r)) == EndMs(c, r) + ReadingShift(EndTime(c), r)
    ensures Stretch(c, r) == ReadingShift(EndTime(c), r) - ReadingShift(c.dtstart, r)
  {
  }

  // ----- What the bounds ask of an event -----

  /** An instance starting at `t` is stored no later than the bound allows. */
  predicate StartFits(t: CalendarTime, r: Resolution) {
    ReadingShift(t, r) <= LATEST
  }

  /** An instance starting at `t`, which takes over the master's length, is stored as ending no earlier than the
      bound allows. */
  predicate EndFits(c: Component, t: CalendarTime, r: Resolution) {
    EARLIEST <= ReadingShift(t, r) + Stretch(c, r)
  }

  predicate RDateEndFits(c: Component, d: RecurrenceDate, r: Resolution) {
    if d.end.Some? then EARLIEST <= ReadingShift(d.end.value, r)
    else if d.duration.Some? then EARLIEST <= ReadingShift(d.start, r)
    else EndFits(c, d.start, r)
  }

  predicate OverrideFits(c: Component, r: Resolution) {
    ReadingShift(c.dtstart, r) <= LATEST && EARLIEST <= ReadingShift(EndTime(c), r)
  }

  /** The time at which the rule's element `i` starts. */
  function TimeAt(c: Component, r: Resolution, i: nat): CalendarTime {
    c.dtstart.(wall := WholeWalk(c, r).at(i))
  }

  /** At the event's own times the query's zone keeps within the bounds, the ends only where there is a last one. */
  ghost predicate OffsetsFit(c: Component, r: Resolution) {
    && (forall i :: WholeWalk(c, r).Has(i) ==> StartFits(TimeAt(c, r, i), r))
    && (forall j :: 0 <= j < |c.rdate| ==> StartFits(c.rdate[j].start, r))
    && (!RecursWithoutEnd(c, Stored(r)) ==>
          && (forall i :: WholeWalk(c, r).Has(i) ==> EndFits(c, TimeAt(c, r, i), r))
          && (forall j :: 0 <= j < |c.rdate| ==> RDateEndFits(c, c.rdate[j], r)))
  }

  /** A zone whose offsets stay between `lo` and `hi`, all of which lies within the bounds, and `lo` by as much
      again as they vary. */
  ghost predicate SteadyZone(r: Resolution, lo: int, hi: int) {
    && (forall t :: DependsOnReading(t) ==> lo <= ReadingShift(t, r) <= hi)
    && EARLIEST <= lo - (hi - lo) && lo <= hi <= LATEST
  }

  /** Such a zone, as any of a fixed offset in use, fits every event whose times are of one kind. */
  lemma SteadyZoneFits(c: Component, r: Resolution, lo: int, hi: int)
    requires SteadyZone(r, lo, hi) && (c.dtend.Some? ==> DependsOnReading(c.dtend.value) == DependsOnReading(c.dtstart))
    requires forall j :: 0 <= j < |c.rdate| ==> DependsOnReading(c.rdate[j].start) == DependsOnReading(c.dtstart)
    ensures OffsetsFit(c, r) && OverrideFits(c, r)
  {
    EndIsShifted(c, r);
    assert DependsOnReading(EndTime(c)) == DependsOnReading(c.dtstart);
  }

  // ----- An instance in one reading has a counterpart in the other -----

  /** The iterator's wall clocks ascend from DTSTART on. */
  ghost predicate WalksForward(walk: Walk, wall: int) {
    && (forall i :: walk.Has(i) ==> wall <= walk.at(i))
    && (forall i, j :: 0 <= i < j && walk.Has(j) ==> walk.at(i) < walk.at(j))
  }

  lemma SeriesReadsWalk(c: Component, r: Resolution, i: nat)
    ensures WholeSeries(c, r).rule.Has(i) <==> WholeWalk(c, r).Has(i)
    ensures WholeSeries(c, r).rule.at(i) == ToInstantMs(TimeAt(c, r, i), r)
  {
  }

  /** Of a rule in a zone of its own, no instance starts earlier than the bound before DTSTART. */
  ghost predicate StartsOnTime(c: Component, r: Resolution) {
    DependsOnReading(c.dtstart)
    || forall i :: WholeWalk(c, r).Has(i) ==> StartMs(c, r) - LATEST <= ToInstantMs(TimeAt(c, r, i), r)
  }

  /** The RDATEs all name a zone, or depend on the reading, as DTSTART does. */
  predicate Homogeneous(c: Component) {
    forall j :: 0 <= j < |c.rdate| ==> DependsOnReading(c.rdate[j].start) == DependsOnReading(c.dtstart)
  }

  /** What the index relies on in a master. */
  ghost predicate Regular(c: Component, r: Resolution) {
    && Homogeneous(c)
    && WalksForward(WholeWalk(c, r), c.dtstart.wall) && WalksForward(WholeWalk(c, Stored(r)), c.dtstart.wall)
    && StartsOnTime(c, r)
    && OffsetsFit(c, r)
    && MayJump(c, r)
    && (TooLong(c, Stored(r)) ==> UntilHonoured(c, Stored(r)))
  }

  /** What it relies on in an event. */
  ghost predicate Fits(o: CalendarObject, r: Resolution) {
    && (forall i :: 0 <= i < |o.overrides| ==> OverrideFits(o.overrides[i], r))
    && (o.master.Some? ==> Regular(o.master.value, r))
  }

  // ----- What goes astray between the readings -----

  /** An EXDATE excludes `t` from what is stored. */
  predicate StoredExcludes(c: Component, r: Resolution, t: CalendarTime) {
    exists i :: 0 <= i < |c.exdate| && ToInstantMs(c.exdate[i], Stored(r)) == ToInstantMs(t, Stored(r))
  }

  ghost predicate Yields(walk: Walk, wall: int) {
    exists i :: walk.Has(i) && walk.at(i) == wall
  }

  /** Element `i` of the rule is excluded from what is stored, or the rule does not yield it there: UNTIL is
      an instant. */
  ghost predicate RuleLost(c: Component, r: Resolution, i: nat) {
    StoredExcludes(c, r, TimeAt(c, r, i)) || !Yields(WholeWalk(c, Stored(r)), TimeAt(c, r, i).wall)
  }

  predicate IsPeriod(d: RecurrenceDate) {
    d.end.Some? || d.duration.Some?
  }

  /** RDATE `j` is excluded from what is stored, or it is a PERIOD that the rule displaces there. */
  ghost predicate RDateLost(c: Component, r: Resolution, j: nat)
    requires j < |c.rdate|
  {
    || StoredExcludes(c, r, c.rdate[j].start)
    || (IsPeriod(c.rdate[j]) && FromTheRule(WholeSeries(c, Stored(r)), ToInstantMs(c.rdate[j].start, Stored(r))))
  }

  /** `y` is an instance for the query, but what is stored lacks it. */
  ghost predicate Lost(c: Component, r: Resolution, y: Instance) {
    && IsInstance(WholeSeries(c, r), y)
    && if FromTheRule(WholeSeries(c, r), y.start)
       then exists i :: Record(WholeSeries(c, r), i) && WholeSeries(c, r).rule.at(i) == y.start && RuleLost(c, r, i)
       else exists j: nat :: LastAt(c.rdate, r, Length(c, r), c.dtend.Some?, j, y) && RDateLost(c, r, j)
  }

  /** The exact test counts `y` in the range. */
  ghost predicate Counted(o: CalendarObject, from: Option<int>, to: Option<int>, r: Resolution, y: Instance) {
    o.master.Some?
      && CountedInstance(o.master.value, o.overrides, from, to, r, StartingWall(o.master.value, r, from), y)
  }

  /** The exact test counts `y` in the range, but what is stored lacks it, or drops it for the rule as the walk from
      DTSTART does. */
  ghost predicate Astray(o: CalendarObject, from: Option<int>, to: Option<int>, r: Resolution, y: Instance) {
    && Counted(o, from, to, r, y)
    && (Lost(o.master.value, r, y) || BroughtBack(o.master.value, o.overrides, from, to, r, y))
  }

  // ----- What does not has a counterpart -----

  /** `y0` in the stored reading stands for `y` in the query's. */
  ghost predicate Counterpart(y: Instance, y0: Instance) {
    y.end + EARLIEST <= y0.end
  }

  /** An instance of the master's length at `t`. */
  lemma LengthCounterpart(c: Component, r: Resolution, t: CalendarTime)
    requires EndFits(c, t, r)
    ensures ToInstantMs(t, r) + Length(c, r) + EARLIEST <= ToInstantMs(t, Stored(r)) + Length(c, Stored(r))
  {
    StoredIsShifted(t, r);
  }

  /** A zone of its own is the same in both readings, and so is the walk. */
  lemma OwnZoneWalksAlike(c: Component, r: Resolution)
    requires !DependsOnReading(c.dtstart)
    ensures ZoneOf(c.dtstart, r) == ZoneOf(c.dtstart, Stored(r)) && WholeWalk(c, r) == WholeWalk(c, Stored(r))
  {
  }

  /** What the rule yields in order, and in the stored reading yields as well, it yields in order there. */
  lemma RecordWhereYielded(c: Component, r: Resolution, i: nat)
    requires WalksForward(WholeWalk(c, r), c.dtstart.wall) && WalksForward(WholeWalk(c, Stored(r)), c.dtstart.wall)
    requires Record(WholeSeries(c, r), i) && Yields(WholeWalk(c, Stored(r)), TimeAt(c, r, i).wall)
    ensures FromTheRule(WholeSeries(c, Stored(r)), ToInstantMs(TimeAt(c, r, i), Stored(r)))
  {
    var s0, walk := WholeSeries(c, Stored(r)), WholeWalk(c, Stored(r));
    var k: nat :| walk.Has(k) && walk.at(k) == TimeAt(c, r, i).wall;
    SeriesReadsWalk(c, Stored(r), k);
    forall j: nat | j < k
      ensures s0.rule.at(j) < s0.rule.at(k)
    {
      SeriesReadsWalk(c, Stored(r), j);
      assert walk.at(j) < walk.at(k);
      if !DependsOnReading(c.dtstart) {
        OwnRecordInBoth(c, r, i, j, k);
      }
    }
    assert Record(s0, k) && s0.rule.at(k) == ToInstantMs(TimeAt(c, r, i), Stored(r));
  }

  lemma OwnRecordInBoth(c: Component, r: Resolution, i: nat, j: nat, k: nat)
    requires !DependsOnReading(c.dtstart) && WalksForward(WholeWalk(c, r), c.dtstart.wall)
    requires Record(WholeSeries(c, r), i) && j < k && WholeWalk(c, r).Has(k)
    requires WholeWalk(c, r).at(k) == WholeWalk(c, r).at(i)
    ensures WholeSeries(c, Stored(r)).rule.at(j) < WholeSeries(c, Stored(r)).rule.at(k)
  {
    var s, walk := WholeSeries(c, r), WholeWalk(c, r);
    OwnZoneWalksAlike(c, r);
    assert walk.Has(i);
    assert i < k ==> walk.at(i) < walk.at(k);
    assert k < i ==> walk.at(k) < walk.at(i);
    assert s.rule.at(j) < s.rule.at(k);
    SeriesReadsWalk(c, r, j);
    SeriesReadsWalk(c, r, k);
    SeriesReadsWalk(c, Stored(r), j);
    SeriesReadsWalk(c, Stored(r), k);
    StoredIsShifted(TimeAt(c, r, j), r);
    StoredIsShifted(TimeAt(c, r, k), r);
  }

  lemma RuleCounterpart(c: Component, r: Resolution, y: Instance) returns (y0: Instance)
    requires Regular(c, r) && !RecursWithoutEnd(c, Stored(r)) && !Lost(c, r, y)
    requires IsInstance(WholeSeries(c, r), y) && FromTheRule(WholeSeries(c, r), y.start)
    ensures IsInstance(WholeSeries(c, Stored(r)), y0) && Counterpart(y, y0)
  {
    var s, s0 := WholeSeries(c, r), WholeSeries(c, Stored(r));
    var i: nat :| Record(s, i) && s.rule.at(i) == y.start;
    var t := TimeAt(c, r, i);
    assert !RuleLost(c, r, i);
    RecordWhereYielded(c, r, i);
    SeriesReadsWalk(c, r, i);
    assert WholeWalk(c, r).Has(i);
    LengthCounterpart(c, r, t);
    var start := ToInstantMs(t, Stored(r));
    y0 := Instance(start, start + s0.length, s0.hasExplicitEnd);
  }

  lemma SameRDate(c: Component, r: Resolution, j: nat, y: Instance) returns (z: Instance)
    requires Homogeneous(c) && LastAt(c.rdate, r, Length(c, r), c.dtend.Some?, j, y) && RDateEndFits(c, c.rdate[j], r)
    ensures LastAt(c.rdate, Stored(r), Length(c, Stored(r)), c.dtend.Some?, j, z)
    ensures Counterpart(y, z) && z.start == ToInstantMs(c.rdate[j].start, Stored(r))
  {
    var d := c.rdate[j];
    z := RDateInstance(d, Stored(r), Length(c, Stored(r)), c.dtend.Some?);
    StoredIsShifted(d.start, r);
    if d.end.Some? {
      StoredIsShifted(d.end.value, r);
    }
    forall i | j < i < |c.rdate|
      ensures ToInstantMs(c.rdate[i].start, Stored(r)) != z.start
    {
      StoredIsShifted(c.rdate[i].start, r);
    }
  }

  lemma RDateCounterpart(c: Component, r: Resolution, y: Instance) returns (y0: Instance)
    requires Regular(c, r) && !RecursWithoutEnd(c, Stored(r)) && !Lost(c, r, y)
    requires IsInstance(WholeSeries(c, r), y) && !FromTheRule(WholeSeries(c, r), y.start)
    ensures IsInstance(WholeSeries(c, Stored(r)), y0) && Counterpart(y, y0)
  {
    var s0 := WholeSeries(c, Stored(r));
    RDatesAscend(c, r);
    RDatesAscend(c, Stored(r));
    assert y in RDateInstances(c, r);
    var j: nat :| LastAt(c.rdate, r, Length(c, r), c.dtend.Some?, j, y);
    var t := c.rdate[j].start;
    assert !RDateLost(c, r, j);
    var z := SameRDate(c, r, j, y);
    assert z in s0.rdates && FromAnRDate(s0, z.start);
    if FromTheRule(s0, z.start) {
      LengthCounterpart(c, r, t);
      y0 := Instance(z.start, z.start + s0.length, s0.hasExplicitEnd);
    } else {
      y0 := z;
    }
  }

  // ----- The prefilter -----

  /** The conditions on `dtstart` and `recurrence_span_end` in `findMatches`. */
  predicate PassesPrefilter(index: TimeRangeIndex, from: Option<int>, to: Option<int>) {
    && (to.Some? ==> index.dtstart < to.value + LATEST)
    && (from.Some? ==> index.recurrenceSpanEnd.None? || index.recurrenceSpanEnd.value >= from.value + EARLIEST)
  }

  /** In hours: the range is widened by 14 at its end and by 12 at its start. */
  lemma PrefilterIs(index: TimeRangeIndex, from: Option<int>, to: Option<int>)
    ensures PassesPrefilter(index, from, to) <==>
              && (to.None? || index.dtstart - 14 * 3_600_000 < to.value)
              && (from.None? || index.recurrenceSpanEnd.None?
                  || from.value <= index.recurrenceSpanEnd.value + 12 * 3_600_000)
  {
  }

  /** The latest start of a range that `y` still overlaps. */
  function LatestFrom(y: Instance): int {
    if y.end == y.start && !y.hasExplicitEnd then y.start else y.end - 1
  }

  lemma OverlapsFrom(y: Instance, from: Option<int>, to: Option<int>)
    ensures Overlaps(y.start, y.end, y.hasExplicitEnd, from, to)
            <==> (from.Some? ==> from.value <= LatestFrom(y)) && Before(y.start, to)
  {
  }

  lemma StartIsIndexed(o: CalendarObject, r: Resolution, index: TimeRangeIndex, i: nat)
    requires Indexes(o, r, index) && i < |ComponentsOf(o)|
    ensures index.dtstart <= StartMs(ComponentsOf(o)[i], r)
  {
    assert IsAStart(o, r, StartMs(ComponentsOf(o)[i], r));
  }

  lemma OverrideEndIsIndexed(o: CalendarObject, r: Resolution, index: TimeRangeIndex, i: nat)
    requires Indexes(o, r, index) && i < |o.overrides| && index.recurrenceSpanEnd.Some?
    ensures EndMs(o.overrides[i], r) <= index.recurrenceSpanEnd.value
  {
    assert IsAnEnd(o, r, EndMs(o.overrides[i], r));
  }

  lemma OverrideStart(o: CalendarObject, r: Resolution, index: TimeRangeIndex, i: nat)
    requires Indexes(o, Stored(r), index) && i < |o.overrides| && OverrideFits(o.overrides[i], r)
    ensures index.dtstart <= StartMs(o.overrides[i], r) + LATEST
  {
    StoredIsShifted(o.overrides[i].dtstart, r);
    StartIsIndexed(o, Stored(r), index, if o.master.Some? then i + 1 else i);
  }

  lemma OverrideEnd(o: CalendarObject, r: Resolution, index: TimeRangeIndex, i: nat)
    requires Indexes(o, Stored(r), index) && i < |o.overrides| && OverrideFits(o.overrides[i], r)
    ensures index.recurrenceSpanEnd.Some? ==> EndMs(o.overrides[i], r) + EARLIEST <= index.recurrenceSpanEnd.value
  {
    EndIsShifted(o.overrides[i], r);
    if index.recurrenceSpanEnd.Some? {
      OverrideEndIsIndexed(o, Stored(r), index, i);
    }
  }

  /** The component itself overlaps the range. */
  predicate IsIn(c: Component, from: Option<int>, to: Option<int>, r: Resolution) {
    Overlaps(StartMs(c, r), EndMs(c, r), c.dtend.Some?, from, to)
  }

  /** An override that overlaps the range is reason enough for the object to pass. */
  lemma OverridePasses(o: CalendarObject, r: Resolution, from: Option<int>, to: Option<int>, index: TimeRangeIndex,
                       i: nat)
    requires Indexes(o, Stored(r), index) && i < |o.overrides| && OverrideFits(o.overrides[i], r)
    requires IsIn(o.overrides[i], from, to, r)
    ensures PassesPrefilter(index, from, to)
  {
    OverrideStart(o, r, index, i);
    OverrideEnd(o, r, index, i);
  }

  /** No instance starts long before the index says. */
  lemma StartsWithin(o: CalendarObject, r: Resolution, index: TimeRangeIndex, y: Instance)
    requires o.master.Some? && Regular(o.master.value, r) && Indexes(o, Stored(r), index)
    requires IsInstance(WholeSeries(o.master.value, r), y) || y in WholeSeries(o.master.value, r).rdates
    ensures index.dtstart <= y.start + LATEST
  {
    var c := o.master.value;
    var s := WholeSeries(c, r);
    if y in s.rdates {
      RDatesAscend(c, r);
      assert y in RDateInstances(c, r);
      var j: nat :| LastAt(c.rdate, r, Length(c, r), c.dtend.Some?, j, y);
      StoredIsShifted(c.rdate[j].start, r);
      assert IsAStart(o, Stored(r), ToInstantMs(c.rdate[j].start, Stored(r)));
    } else {
      var i: nat :| Record(s, i) && s.rule.at(i) == y.start;
      RuleStartsWithin(c, r, i);
      SeriesReadsWalk(c, r, i);
      StartIsIndexed(o, Stored(r), index, 0);
    }
  }

  lemma RuleStartsWithin(c: Component, r: Resolution, i: nat)
    requires Regular(c, r) && WholeWalk(c, r).Has(i)
    ensures StartMs(c, Stored(r)) <= ToInstantMs(TimeAt(c, r, i), r) + LATEST
  {
    StoredIsShifted(TimeAt(c, r, i), r);
    StoredIsShifted(c.dtstart, r);
    assert StartFits(TimeAt(c, r, i), r);
  }

  /** What is not lost ends within the stored span. */
  lemma EndsWithin(o: CalendarObject, r: Resolution, index: TimeRangeIndex, y: Instance)
    requires o.master.Some? && Regular(o.master.value, r) && Indexes(o, Stored(r), index)
    requires index.recurrenceSpanEnd.Some?
    requires IsInstance(WholeSeries(o.master.value, r), y) && !Lost(o.master.value, r, y)
    ensures y.end + EARLIEST <= index.recurrenceSpanEnd.value
  {
    var c := o.master.value;
    var y0;
    if FromTheRule(WholeSeries(c, r), y.start) {
      y0 := RuleCounterpart(c, r, y);
    } else {
      y0 := RDateCounterpart(c, r, y);
    }
    SpanEndBoundsInstances(o, Stored(r), index.recurrenceSpanEnd.value, y0);
  }

  // ----- The exact test, and what the prefilter hides from it -----

  /** The exact test: the expansion in the query's reading finds an occurrence. */
  ghost predicate Matches(o: CalendarObject, from: Option<int>, to: Option<int>, r: Resolution) {
    exists occurrences :: occurrences != []
      && ExpandsTo(o, from, to, r, MAX_RECURRENCE_INSTANCES, WallOf(o, r, from), Success(occurrences))
  }

  /** It answers, and an override overlaps the range, or an instance counts that none stands in for. */
  lemma MatchFinds(o: CalendarObject, from: Option<int>, to: Option<int>, r: Resolution)
    ensures Matches(o, from, to, r) <==>
              && Answers(o, from, to, r, MAX_RECURRENCE_INSTANCES)
              && ((exists i :: 0 <= i < |o.overrides| && IsIn(o.overrides[i], from, to, r))
                  || (exists y :: Counted(o, from, to, r, y)))
  {
    AnswersExactlyWithinBudget(o, from, to, r, MAX_RECURRENCE_INSTANCES);
    forall occurrences
        | ExpandsTo(o, from, to, r, MAX_RECURRENCE_INSTANCES, WallOf(o, r, from), Success(occurrences))
      ensures occurrences != [] <==> (exists i :: 0 <= i < |o.overrides| && IsIn(o.overrides[i], from, to, r))
                                     || (exists y :: Counted(o, from, to, r, y))
    {
      AnswerFinds(o, from, to, r, occurrences);
    }
  }

  lemma AnswerFinds(o: CalendarObject, from: Option<int>, to: Option<int>, r: Resolution, occurrences: seq<Occurrence>)
    requires ExpandsTo(o, from, to, r, MAX_RECURRENCE_INSTANCES, WallOf(o, r, from), Success(occurrences))
    ensures occurrences != [] <==> (exists i :: 0 <= i < |o.overrides| && IsIn(o.overrides[i], from, to, r))
                                   || (exists y :: Counted(o, from, to, r, y))
  {
    var wall := WallOf(o, r, from);
    OccurrencesAre(o, from, to, r, MAX_RECURRENCE_INSTANCES, wall, occurrences);
    if occurrences != [] {
      var x := occurrences[0];
      assert x in occurrences;
      if IsOverride(o, from, to, r, x) {
        var i: nat :| i < |o.overrides| && OverrideOverlaps(o.overrides[i], from, to, r, x);
        assert IsIn(o.overrides[i], from, to, r);
      } else {
        var c := o.master.value;
        var y :| CountedInstance(c, o.overrides, from, to, r, wall, y) && x == OccurrenceOf(c, y.start, y.end, false);
        assert Counted(o, from, to, r, y);
      }
    }
    if i :| 0 <= i < |o.overrides| && IsIn(o.overrides[i], from, to, r) {
      var c := o.overrides[i];
      assert OverrideOverlaps(c, from, to, r, OccurrenceOf(c, StartMs(c, r), EndMs(c, r), true));
      assert OccurrenceOf(c, StartMs(c, r), EndMs(c, r), true) in occurrences;
    }
    if y :| Counted(o, from, to, r, y) {
      assert IsOfMaster(o, from, to, r, wall, OccurrenceOf(o.master.value, y.start, y.end, false));
      assert OccurrenceOf(o.master.value, y.start, y.end, false) in occurrences;
    }
  }

  /** The range starts more than the bound after the stored span. */
  predicate StartsAfterSpan(from: Option<int>, index: TimeRangeIndex) {
    from.Some? && index.recurrenceSpanEnd.Some? && index.recurrenceSpanEnd.value < from.value + EARLIEST
  }

  /** An instance that did not go astray is reason enough for the object to pass. */
  lemma InstancePasses(o: CalendarObject, r: Resolution, from: Option<int>, to: Option<int>, index: TimeRangeIndex,
                       y: Instance)
    requires Fits(o, r) && Indexes(o, Stored(r), index) && Counted(o, from, to, r, y)
    ensures PassesPrefilter(index, from, to) || (StartsAfterSpan(from, index) && Astray(o, from, to, r, y))
  {
    var c := o.master.value;
    CountedAfterJump(c, o.overrides, from, to, r, y);
    StartsWithin(o, r, index, y);
    OverlapsFrom(y, from, to);
    if from.Some? && index.recurrenceSpanEnd.Some? && !Astray(o, from, to, r, y) {
      EndsWithin(o, r, index, y);
    }
  }

  /** The index hides a match exactly if the exact test counts an instance that went astray, in a range that starts
      more than the bound after the stored span. */
  lemma HidesExactlyWhatWentAstray(o: CalendarObject, r: Resolution, from: Option<int>, to: Option<int>,
                                   index: TimeRangeIndex)
    requires Fits(o, r) && Indexes(o, Stored(r), index)
    ensures Matches(o, from, to, r) && !PassesPrefilter(index, from, to) <==>
              && Answers(o, from, to, r, MAX_RECURRENCE_INSTANCES)
              && StartsAfterSpan(from, index) && exists y :: Astray(o, from, to, r, y)
  {
    MatchFinds(o, from, to, r);
    if i: nat :| i < |o.overrides| && IsIn(o.overrides[i], from, to, r) {
      OverridePasses(o, r, from, to, index, i);
    }
    if y :| Counted(o, from, to, r, y) {
      InstancePasses(o, r, from, to, index, y);
    }
    if y :| Astray(o, from, to, r, y) {
      assert Counted(o, from, to, r, y);
    }
  }

  /** Where the range starts by then, or nothing went astray, the index never hides a match. */
  lemma PrefilterIsSound(o: CalendarObject, r: Resolution, from: Option<int>, to: Option<int>, index: TimeRangeIndex)
    requires Fits(o, r) && Indexes(o, Stored(r), index)
    requires StartsAfterSpan(from, index) ==> forall y :: !Astray(o, from, to, r, y)
    ensures Matches(o, from, to, r) ==> PassesPrefilter(index, from, to)
  {
    HidesExactlyWhatWentAstray(o, r, from, to, index);
  }

  // ----- Events of which nothing goes astray -----

  /** The rule's iterator yields the same in both readings: UNTIL, which it compares as an instant, cuts both alike. */
  ghost predicate WalksAlike(c: Component, r: Resolution) {
    forall i :: (WholeWalk(c, r).Has(i) <==> WholeWalk(c, Stored(r)).Has(i))
                && (WholeWalk(c, r).Has(i) ==> WholeWalk(c, r).at(i) == WholeWalk(c, Stored(r)).at(i))
  }

  /** The EXDATEs depend on the reading as DTSTART does. */
  predicate LikeExdates(c: Component) {
    forall i :: 0 <= i < |c.exdate| ==> DependsOnReading(c.exdate[i]) == DependsOnReading(c.dtstart)
  }

  /** With EXDATEs like DTSTART, the same walk in both readings and no PERIOD on the rule nothing goes astray. */
  lemma NothingGoesAstray(o: CalendarObject, r: Resolution, from: Option<int>, to: Option<int>, y: Instance)
    requires o.master.Some? && Regular(o.master.value, r) && LikeExdates(o.master.value)
    requires WalksAlike(o.master.value, r) && NoPeriodOnTheRule(o.master.value, r)
    ensures !Astray(o, from, to, r, y)
  {
    var c := o.master.value;
    NoPeriodNoHarm(c, o.overrides, from, to, r);
    if IsInstance(WholeSeries(c, r), y) {
      if FromTheRule(WholeSeries(c, r), y.start) {
        RuleIsNotLost(c, r, y);
      } else {
        RDateIsNotLost(c, r, y);
      }
    }
  }

  lemma RuleIsNotLost(c: Component, r: Resolution, y: Instance)
    requires LikeExdates(c) && WalksAlike(c, r)
    requires IsInstance(WholeSeries(c, r), y) && FromTheRule(WholeSeries(c, r), y.start)
    ensures !Lost(c, r, y)
  {
    var s := WholeSeries(c, r);
    forall i: nat | Record(s, i) && s.rule.at(i) == y.start
      ensures !RuleLost(c, r, i)
    {
      SeriesReadsWalk(c, r, i);
      ExcludedInBoth(c, r, TimeAt(c, r, i));
      assert WholeWalk(c, Stored(r)).Has(i) && WholeWalk(c, Stored(r)).at(i) == TimeAt(c, r, i).wall;
    }
  }

  lemma RDateIsNotLost(c: Component, r: Resolution, y: Instance)
    requires Homogeneous(c) && LikeExdates(c) && WalksAlike(c, r) && NoPeriodOnTheRule(c, r)
    requires IsInstance(WholeSeries(c, r), y) && !FromTheRule(WholeSeries(c, r), y.start)
    ensures !Lost(c, r, y)
  {
    forall j: nat | LastAt(c.rdate, r, Length(c, r), c.dtend.Some?, j, y)
      ensures !RDateLost(c, r, j)
    {
      var t := c.rdate[j].start;
      ExcludedInBoth(c, r, t);
      if FromTheRule(WholeSeries(c, Stored(r)), ToInstantMs(t, Stored(r))) {
        OnTheRuleInBoth(c, r, t);
      }
    }
  }

  lemma ExcludedInBoth(c: Component, r: Resolution, t: CalendarTime)
    requires forall i :: 0 <= i < |c.exdate| ==> DependsOnReading(c.exdate[i]) == DependsOnReading(t)
    ensures StoredExcludes(c, r, t) ==> ToInstantMs(t, r) in WholeSeries(c, r).excluded
  {
    StoredIsShifted(t, r);
    forall i | 0 <= i < |c.exdate| && ToInstantMs(c.exdate[i], Stored(r)) == ToInstantMs(t, Stored(r))
      ensures ToInstantMs(c.exdate[i], r) == ToInstantMs(t, r)
    {
      StoredIsShifted(c.exdate[i], r);
    }
  }

  /** An RDATE that coincides with the rule when stored does so in the query's reading, too. */
  lemma OnTheRuleInBoth(c: Component, r: Resolution, t: CalendarTime)
    requires DependsOnReading(t) == DependsOnReading(c.dtstart) && WalksAlike(c, r)
    requires FromTheRule(WholeSeries(c, Stored(r)), ToInstantMs(t, Stored(r)))
    ensures OnTheRule(WholeSeries(c, r), ToInstantMs(t, r))
  {
    var s, s0 := WholeSeries(c, r), WholeSeries(c, Stored(r));
    var i: nat :| Record(s0, i) && s0.rule.at(i) == ToInstantMs(t, Stored(r));
    SeriesReadsWalk(c, r, i);
    SeriesReadsWalk(c, Stored(r), i);
    assert WholeWalk(c, Stored(r)).Has(i);
    StoredIsShifted(TimeAt(c, r, i), r);
    StoredIsShifted(t, r);
    assert s.rule.Has(i) && s.rule.at(i) == ToInstantMs(t, r);
  }

  // ----- Which events some range hides -----

  ghost predicate HiddenFromSome(o: CalendarObject, r: Resolution, index: TimeRangeIndex) {
    exists from, to :: Matches(o, from, to, r) && !PassesPrefilter(index, from, to)
  }

  /** An instance that what is stored lacks, and no override stands in for, goes on until more than the bound after the
      stored span. */
  ghost predicate LostAfterSpan(o: CalendarObject, r: Resolution, index: TimeRangeIndex) {
    o.master.Some? && index.recurrenceSpanEnd.Some?
      && exists y :: Lost(o.master.value, r, y) && !Overridden(o.overrides, r, y.start)
                     && index.recurrenceSpanEnd.value < LatestFrom(y) + EARLIEST
  }

  /** A jump to some time more than the bound after the stored span brings back a PERIOD that still goes on. */
  ghost predicate BackAfterSpan(o: CalendarObject, r: Resolution, index: TimeRangeIndex) {
    o.master.Some? && exists from, y :: StartsAfterSpan(Some(from), index)
                                        && BroughtBack(o.master.value, o.overrides, Some(from), None, r, y)
  }

  /** No PERIOD lies on an instant that the rule yields only out of order. */
  ghost predicate NoPeriodOnLateInstant(c: Component, r: Resolution) {
    forall j :: 0 <= j < |c.rdate| && IsPeriod(c.rdate[j]) ==>
      var t := ToInstantMs(c.rdate[j].start, r);
      OnTheRule(WholeSeries(c, r), t) ==> FromTheRule(WholeSeries(c, r), t)
  }

  /** A rule whose end the span could tell by walking it is within every query's budget. */
  lemma ShortRuleAnswers(o: CalendarObject, from: Option<int>, to: Option<int>, r: Resolution)
    requires o.master.Some? ==> MayJump(o.master.value, r) && !TooLong(o.master.value, r)
    ensures Answers(o, from, to, r, MAX_RECURRENCE_INSTANCES)
  {
    if o.master.Some? && StartingWall(o.master.value, r, from) != o.master.value.dtstart.wall {
      var m := JumpLeavesOut(o.master.value, r, from);
      var plain := WholeSeries(o.master.value, r);
      assert plain.rule.Has(MAX_RECURRENCE_INSTANCES + m) ==> plain.rule.Has(MAX_SPAN_INSTANCES);
    }
  }

  /** What counts as walked from DTSTART still does after the jump. */
  lemma CountedStays(c: Component, overrides: seq<Component>, from: Option<int>, to: Option<int>, r: Resolution,
                     y: Instance)
    requires MayJump(c, r) && NoPeriodOnLateInstant(c, r)
    requires CountedInstance(c, overrides, from, to, r, c.dtstart.wall, y)
    ensures CountedInstance(c, overrides, from, to, r, StartingWall(c, r, from), y)
  {
    var plain, jumped := WholeSeries(c, r), SeriesOf(c, r, StartingWall(c, r, from));
    if StartingWall(c, r, from) != c.dtstart.wall && !IsInstance(jumped, y) {
      var m := JumpLeavesOut(c, r, from);
      EarlyInstancesDoNotCount(c, overrides, r, from, to, c.dtstart.wall);
      JumpLosesWhatIsLate(plain, jumped, m, from.value - Length(c, r), Counts(overrides, r, from, to), y);
      RDatesAscend(c, r);
      assert y in RDateInstances(c, r);
      var j: nat :| LastAt(c.rdate, r, Length(c, r), c.dtend.Some?, j, y);
      assert IsPeriod(c.rdate[j]);
      assert false;
    }
  }

  /** Some range hides the event exactly if an instance is lost after the span, or a jump brings one back after it. */
  lemma HiddenFromSomeExactly(o: CalendarObject, r: Resolution, index: TimeRangeIndex)
    requires Fits(o, r) && Indexes(o, Stored(r), index)
    requires o.master.Some? ==> NoPeriodOnLateInstant(o.master.value, r) && !TooLong(o.master.value, r)
    ensures HiddenFromSome(o, r, index) <==> LostAfterSpan(o, r, index) || BackAfterSpan(o, r, index)
  {
    if HiddenFromSome(o, r, index) {
      var from, to :| Matches(o, from, to, r) && !PassesPrefilter(index, from, to);
      HidesExactlyWhatWentAstray(o, r, from, to, index);
      var y :| Astray(o, from, to, r, y);
      OverlapsFrom(y, from, to);
      OverlapsFrom(y, from, None);
      if !Lost(o.master.value, r, y) {
        assert BroughtBack(o.master.value, o.overrides, Some(from.value), None, r, y);
      }
    }
    if LostAfterSpan(o, r, index) {
      LostIsHidden(o, r, index);
    }
    if BackAfterSpan(o, r, index) {
      BackIsHidden(o, r, index);
    }
  }

  lemma LostIsHidden(o: CalendarObject, r: Resolution, index: TimeRangeIndex)
    requires Fits(o, r) && Indexes(o, Stored(r), index) && LostAfterSpan(o, r, index)
    requires NoPeriodOnLateInstant(o.master.value, r) && !TooLong(o.master.value, r)
    ensures HiddenFromSome(o, r, index)
  {
    var c := o.master.value;
    var y :| Lost(c, r, y) && !Overridden(o.overrides, r, y.start)
             && index.recurrenceSpanEnd.value < LatestFrom(y) + EARLIEST;
    var from := Some(LatestFrom(y));
    OverlapsFrom(y, from, None);
    assert CountedInstance(c, o.overrides, from, None, r, c.dtstart.wall, y);
    CountedStays(c, o.overrides, from, None, r, y);
    assert Astray(o, from, None, r, y);
    ShortRuleAnswers(o, from, None, r);
    HidesExactlyWhatWentAstray(o, r, from, None, index);
  }

  lemma BackIsHidden(o: CalendarObject, r: Resolution, index: TimeRangeIndex)
    requires Fits(o, r) && Indexes(o, Stored(r), index) && BackAfterSpan(o, r, index)
    requires !TooLong(o.master.value, r)
    ensures HiddenFromSome(o, r, index)
  {
    var c := o.master.value;
    var from, y :| StartsAfterSpan(Some(from), index) && BroughtBack(c, o.overrides, Some(from), None, r, y);
    CountedAfterJump(c, o.overrides, Some(from), None, r, y);
    assert Astray(o, Some(from), None, r, y);
    ShortRuleAnswers(o, Some(from), None, r);
    HidesExactlyWhatWentAstray(o, r, Some(from), None, index);
  }

  // ----- The query -----

  datatype StoredEvent = StoredEvent(event: CalendarObject, index: TimeRangeIndex)

  function Prefilter(from: Option<int>, to: Option<int>): StoredEvent -> bool {
    (e: StoredEvent) => PassesPrefilter(e.index, from, to)
  }

  /** What a query in the reading `r` relies on in a stored event that it is to find. */
  ghost predicate WellIndexed(e: StoredEvent, from: Option<int>, to: Option<int>, r: Resolution) {
    && Indexes(e.event, Stored(r), e.index) && Fits(e.event, r)
    && (StartsAfterSpan(from, e.index) ==> forall y :: !Astray(e.event, from, to, r, y))
  }

  /** `findMatches` with its prefilter: the first `count` events that pass the exact test and may be read, as if
      every event of the calendar had been tested. `exact` is the exact test with whatever else the filter asks. */
  method FindEvents(rows: seq<StoredEvent>, exact: StoredEvent -> bool, allowed: StoredEvent -> bool, count: nat,
                    from: Option<int>, to: Option<int>, ghost r: Resolution)
    returns (matches: seq<StoredEvent>)
    requires count > 0
    requires forall e :: e in rows && exact(e) ==> Matches(e.event, from, to, r) && WellIndexed(e, from, to, r)
    ensures matches == Take(Filter(Both(exact, allowed), rows), count)
  {
    var candidates := Filter(Prefilter(from, to), rows);
    matches := FindMatches(candidates, exact, allowed, count);
    FilterBoth(Prefilter(from, to), Both(exact, allowed), rows);
    forall e | e in rows && exact(e)
      ensures Prefilter(from, to)(e)
    {
      PrefilterIsSound(e.event, r, from, to, e.index);
    }
    FilterAgrees(Both(Prefilter(from, to), Both(exact, allowed)), Both(exact, allowed), rows);
  }

  /** The answer to a calendar query: the first `maxResults` events that match and may be read, and whether there
      are more. */
  method AnswerCalendarQuery(rows: seq<StoredEvent>, exact: StoredEvent -> bool, allowed: StoredEvent -> bool,
                             maxResults: nat,
                             from: Option<int>, to: Option<int>, ghost r: Resolution)
    returns (results: seq<StoredEvent>, truncated: bool)
    requires forall e :: e in rows && exact(e) ==> Matches(e.event, from, to, r) && WellIndexed(e, from, to, r)
    ensures results == Take(Filter(Both(exact, allowed), rows), maxResults)
    ensures truncated <==> |Filter(Both(exact, allowed), rows)| > maxResults
  {
    var matches := FindEvents(rows, exact, allowed, maxResults + 1, from, to, r);
    TruncatedExactlyWhenMorePass(Filter(Both(exact, allowed), rows), maxResults);
    truncated := |matches| > maxResults;
    results := if truncated then matches[..maxResults] else matches;
  }

  // ----- Matches that the prefilter hides -----

  /** Every zone is `hours` east of UTC. */
  function FixedZone(hours: int): Resolution {
    Resolution((tzid: string, wall: int) => hours * 3600, Some("Fixed"))
  }

  lemma SpanIs(o: CalendarObject, r: Resolution, index: TimeRangeIndex, t: int)
    requires Indexes(o, r, index) && !WithoutEnd(o, r) && SpanEndsAt(o, r, t)
    ensures index.recurrenceSpanEnd == Some(t)
  {
    assert IsAnEnd(o, r, t) && IsAnEnd(o, r, index.recurrenceSpanEnd.value);
  }

  lemma DailyReads(c: Component, kind: TimeKind, until: int, hours: int, rdate: seq<RecurrenceDate>)
    requires (kind.Utc? || kind.Floating?) && c == DailyUntil(kind, until, hours * HOUR_MS, rdate)
    ensures DailyIn(c, kind, until, hours * HOUR_MS, rdate, FixedZone(hours), if kind.Utc? then 0 else hours * HOUR_MS)
    ensures DailyIn(c, kind, until, hours * HOUR_MS, rdate, Stored(FixedZone(hours)), 0)
  {
  }

  /** In all but what goes astray these events fit. */
  lemma DailyFits(c: Component, kind: TimeKind, until: int, hours: int, rdate: seq<RecurrenceDate>)
    requires (kind.Utc? || kind.Floating?) && c == DailyUntil(kind, until, hours * HOUR_MS, rdate)
    requires forall j :: 0 <= j < |rdate| ==> rdate[j].start.kind == kind && rdate[j].end.None?
    requires -12 <= hours <= 14
    ensures Regular(c, FixedZone(hours))
  {
    var r := FixedZone(hours);
    DailyReads(c, kind, until, hours, rdate);
    DailyMayJump(c, kind, until, hours * HOUR_MS, rdate, r, if kind.Utc? then 0 else hours * HOUR_MS);
    assert SteadyZone(r, hours * HOUR_MS, hours * HOUR_MS);
    SteadyZoneFits(c, r, hours * HOUR_MS, hours * HOUR_MS);
    forall i: nat
      ensures WholeSeries(c, Stored(r)).rule.Has(i) ==> WholeSeries(c, Stored(r)).rule.at(i) <= until
    {
      DailySeries(c, kind, until, hours * HOUR_MS, rdate, Stored(r), 0, FIRST, i);
    }
    forall i: nat
      ensures WholeWalk(c, r).at(i) == FIRST + i * DAY_MS && WholeWalk(c, Stored(r)).at(i) == FIRST + i * DAY_MS
    {
      DailyWalk(kind, until, hours * HOUR_MS, rdate, ZoneOf(c.dtstart, r), FIRST, i);
      DailyWalk(kind, until, hours * HOUR_MS, rdate, ZoneOf(c.dtstart, Stored(r)), FIRST, i);
    }
  }

  lemma DailyIndexed(c: Component, kind: TimeKind, until: int, hours: int, rdate: seq<RecurrenceDate>,
                     index: TimeRangeIndex)
    requires (kind.Utc? || kind.Floating?) && c == DailyUntil(kind, until, hours * HOUR_MS, rdate)
    requires SECOND <= until < THIRD
    requires forall j :: 0 <= j < |rdate| ==> rdate[j].start.kind == kind && rdate[j].start.wall in {FIRST, SECOND}
    requires Indexes(CalendarObject(Some(c), []), Stored(FixedZone(hours)), index)
    ensures index.recurrenceSpanEnd == Some(SECOND)
  {
    var r := Stored(FixedZone(hours));
    DailyReads(c, kind, until, hours, rdate);
    DailySpan(c, kind, until, hours * HOUR_MS, rdate, r);
    SpanIs(CalendarObject(Some(c), []), r, index, SECOND);
  }

  /** A PERIOD that the jump brings back hides an event in UTC: the span ends with the second day. */
  lemma BroughtBackHides(index: TimeRangeIndex)
    requires Indexes(CalendarObject(Some(DailyUntil(Utc, SECOND, 0,
                                                    [HundredDays(CalendarTime(Utc, FIRST, None))])), []),
                     Stored(FixedZone(0)), index)
    ensures var c := DailyUntil(Utc, SECOND, 0, [HundredDays(CalendarTime(Utc, FIRST, None))]);
            var o, r, from := CalendarObject(Some(c), []), FixedZone(0), Some(50 * DAY_MS);
            Fits(o, r) && LikeExdates(c) && WalksAlike(c, r)
              && Matches(o, from, None, r) && !PassesPrefilter(index, from, None)
  {
    var rdate := [HundredDays(CalendarTime(Utc, FIRST, None))];
    var c, r, from := DailyUntil(Utc, SECOND, 0, rdate), FixedZone(0), Some(50 * DAY_MS);
    var o := CalendarObject(Some(c), []);
    DailyFits(c, Utc, SECOND, 0, rdate);
    DailyIndexed(c, Utc, SECOND, 0, rdate, index);
    PeriodOnTheRuleShows(r);
    DailyReads(c, Utc, SECOND, 0, rdate);
    DailyIsOver(c, Utc, SECOND, 0, rdate, r, 0, MAX_RECURRENCE_INSTANCES);
    assert Astray(o, from, None, r, Instance(FIRST, FIRST + 100 * DAY_MS, true));
    HidesExactlyWhatWentAstray(o, r, from, None, index);
  }

  /** An UNTIL hides a floating event: ten hours east of UTC the rule gets one day further than it does when stored. */
  lemma LongerWalkHides(index: TimeRangeIndex)
    requires Indexes(CalendarObject(Some(DailyUntil(Floating, 47 * HOUR_MS, 10 * HOUR_MS, [])), []),
                     Stored(FixedZone(10)), index)
    ensures var c := DailyUntil(Floating, 47 * HOUR_MS, 10 * HOUR_MS, []);
            var o, r, from := CalendarObject(Some(c), []), FixedZone(10), Some(47 * HOUR_MS);
            Fits(o, r) && LikeExdates(c) && NoPeriodOnTheRule(c, r)
              && Matches(o, from, None, r) && !PassesPrefilter(index, from, None)
  {
    var c := DailyUntil(Floating, 47 * HOUR_MS, 10 * HOUR_MS, []);
    var o, r, from := CalendarObject(Some(c), []), FixedZone(10), Some(47 * HOUR_MS);
    DailyFits(c, Floating, 47 * HOUR_MS, 10, []);
    DailyIndexed(c, Floating, 47 * HOUR_MS, 10, [], index);
    ThirdDayGoesAstray(c, o, r);
    HidesExactlyWhatWentAstray(o, r, from, None, index);
  }

  lemma ThirdDayGoesAstray(c: Component, o: CalendarObject, r: Resolution)
    requires c == DailyUntil(Floating, 47 * HOUR_MS, 10 * HOUR_MS, []) && o == CalendarObject(Some(c), [])
    requires r == FixedZone(10)
    ensures Astray(o, Some(47 * HOUR_MS), None, r, Instance(47 * HOUR_MS, 47 * HOUR_MS, false))
    ensures Answers(o, Some(47 * HOUR_MS), None, r, MAX_RECURRENCE_INSTANCES)
  {
    DailyReads(c, Floating, 47 * HOUR_MS, 10, []);
    ThirdDayIsLost(c, r);
    NoJumpToTheThirdDay(c, r);
    DailySeries(c, Floating, 47 * HOUR_MS, 10 * HOUR_MS, [], r, 10 * HOUR_MS, FIRST, MAX_RECURRENCE_INSTANCES);
  }

  lemma NoJumpToTheThirdDay(c: Component, r: Resolution)
    requires c == DailyUntil(Floating, 47 * HOUR_MS, 10 * HOUR_MS, []) && r == FixedZone(10)
    ensures StartMs(c, r) == -HOUR_MS && Length(c, r) == 0
    ensures StartingWall(c, r, Some(47 * HOUR_MS)) == c.dtstart.wall == FIRST
  {
  }

  lemma ThirdDayIsLost(c: Component, r: Resolution)
    requires c == DailyUntil(Floating, 47 * HOUR_MS, 10 * HOUR_MS, []) && r == FixedZone(10)
    ensures Lost(c, r, Instance(47 * HOUR_MS, 47 * HOUR_MS, false))
  {
    var until, east, s := 47 * HOUR_MS, 10 * HOUR_MS, WholeSeries(c, r);
    DailyReads(c, Floating, until, 10, []);
    DailyFromTheRule(c, Floating, until, east, [], r, east, FIRST, until);
    assert FIRST + 2 * DAY_MS - east == until;
    var i: nat :| Record(s, i) && s.rule.at(i) == until;
    DailySeries(c, Floating, until, east, [], r, east, FIRST, i);
    assert TimeAt(c, r, i).wall == THIRD;
    forall k: nat
      ensures !(WholeWalk(c, Stored(r)).Has(k) && WholeWalk(c, Stored(r)).at(k) == THIRD)
    {
      DailyWalk(Floating, until, east, [], None, FIRST, k);
    }
    assert RuleLost(c, r, i);
  }

  /** And a PERIOD that the rule displaces only when stored: ten hours west the rule does not get as far. */
  lemma DisplacedPeriodHides(index: TimeRangeIndex)
    requires Indexes(CalendarObject(Some(DailyUntil(Floating, SECOND, -10 * HOUR_MS,
                                                    [HundredDays(CalendarTime(Floating, SECOND, None))])), []),
                     Stored(FixedZone(-10)), index)
    ensures var c := DailyUntil(Floating, SECOND, -10 * HOUR_MS, [HundredDays(CalendarTime(Floating, SECOND, None))]);
            var o, r, from := CalendarObject(Some(c), []), FixedZone(-10), Some(50 * DAY_MS);
            Fits(o, r) && LikeExdates(c) && NoPeriodOnTheRule(c, r)
              && Matches(o, from, None, r) && !PassesPrefilter(index, from, None)
  {
    var start := CalendarTime(Floating, SECOND, None);
    var rdate, east, r, from := [HundredDays(start)], -10 * HOUR_MS, FixedZone(-10), Some(50 * DAY_MS);
    var c := DailyUntil(Floating, SECOND, east, rdate);
    var o := CalendarObject(Some(c), []);
    DailyFits(c, Floating, SECOND, -10, rdate);
    DailyIndexed(c, Floating, SECOND, -10, rdate, index);
    DailyReads(c, Floating, SECOND, -10, rdate);
    PeriodIsDisplaced(c, r);
    var y := Instance(43 * HOUR_MS, 43 * HOUR_MS + 100 * DAY_MS, true);
    DailyIsOver(c, Floating, SECOND, east, rdate, r, east, MAX_RECURRENCE_INSTANCES);
    assert Astray(o, from, None, r, y);
    HidesExactlyWhatWentAstray(o, r, from, None, index);
  }

  lemma PeriodIsDisplaced(c: Component, r: Resolution)
    requires c == DailyUntil(Floating, SECOND, -10 * HOUR_MS, [HundredDays(CalendarTime(Floating, SECOND, None))])
    requires r == FixedZone(-10)
    ensures var y, from := Instance(43 * HOUR_MS, 43 * HOUR_MS + 100 * DAY_MS, true), Some(50 * DAY_MS);
            && NoPeriodOnTheRule(c, r) && Lost(c, r, y)
            && Counted(CalendarObject(Some(c), []), from, None, r, y)
  {
    var start := CalendarTime(Floating, SECOND, None);
    var rdate, east, from := [HundredDays(start)], -10 * HOUR_MS, Some(50 * DAY_MS);
    var y := Instance(43 * HOUR_MS, 43 * HOUR_MS + 100 * DAY_MS, true);
    DailyReads(c, Floating, SECOND, -10, rdate);
    OnePeriod(c, Floating, SECOND, east, start, r);
    assert ToInstantMs(start, r) == 43 * HOUR_MS && ToInstantMs(start, Stored(r)) == SECOND;
    DailyFromTheRule(c, Floating, SECOND, east, rdate, Stored(r), 0, FIRST, SECOND);
    assert FIRST + 1 * DAY_MS == SECOND;
    forall i: nat
      ensures WholeSeries(c, r).rule.Has(i) ==> WholeSeries(c, r).rule.at(i) <= SECOND
      ensures !SeriesOf(c, r, StartingWall(c, r, from)).rule.Has(i)
    {
      DailySeries(c, Floating, SECOND, east, rdate, r, east, FIRST, i);
      DailyIsOver(c, Floating, SECOND, east, rdate, r, east, i);
    }
    assert WholeSeries(c, r).rdates[0] == y && FromAnRDate(WholeSeries(c, r), y.start);
    assert SeriesOf(c, r, StartingWall(c, r, from)).rdates[0] == y;
    assert LastAt(c.rdate, r, Length(c, r), false, 0, y);
    assert RDateLost(c, r, 0);
  }

  /** A floating event with a floating RDATE a hundred days on that a UTC EXDATE names in the stored reading only. */
  function MixedEvent(): Component {
    Component(CalendarTime(Floating, 0, None), None, None, false, None,
              [RecurrenceDate(CalendarTime(Floating, 100 * DAY_MS, None), None, None)],
              [CalendarTime(Utc, 100 * DAY_MS, None)], None, Opaque, None)
  }

  lemma MixedSeries(r: Resolution, offset: int)
    requires (r.floatingTimeZone.None? && offset == 0) || (r == FixedZone(1) && offset == HOUR_MS)
    ensures var s := WholeSeries(MixedEvent(), r);
            && !s.counted && s.length == 0 && !s.hasExplicitEnd && s.excluded == {100 * DAY_MS}
            && (forall t :: FromTheRule(s, t) <==> t == -offset)
            && s.rdates == [Instance(100 * DAY_MS - offset, 100 * DAY_MS - offset, false)]
  {
    var c := MixedEvent();
    var s := WholeSeries(c, r);
    assert ToInstantMs(c.rdate[0].start, r) == 100 * DAY_MS - offset;
    assert StartMs(c, r) == -offset;
    var only := RDateInstance(c.rdate[0], r, Length(c, r), false);
    assert c.rdate[..0] == [];
    assert RDatesByStart(c.rdate, r, Length(c, r), false)
           == Put(RDatesByStart(c.rdate[..0], r, Length(c, r), false), only);
    SortOfOrdered(StartsBefore, [only]);
    assert c.exdate[0] == CalendarTime(Utc, 100 * DAY_MS, None);
    forall t
      ensures FromTheRule(s, t) <==> t == -offset
    {
      assert s.rule.at(0) == -offset;
      assert Record(s, 0);
    }
  }

  lemma MixedSpan(o: CalendarObject, r: Resolution)
    requires o == CalendarObject(Some(MixedEvent()), []) && r.floatingTimeZone == None
    ensures SpanEndsAt(o, r, 0) && !WithoutEnd(o, r)
  {
    var s := WholeSeries(MixedEvent(), r);
    MixedSeries(r, 0);
    assert forall x :: IsInstance(s, x) ==> x.end == 0;
    assert !TooLong(MixedEvent(), r) && EndMs(MixedEvent(), r) == 0;
    assert IsAnEnd(o, r, 0);
  }

  lemma MixedIsLost(r: Resolution, at: int)
    requires r == FixedZone(1) && at == 100 * DAY_MS - HOUR_MS
    ensures Lost(MixedEvent(), r, Instance(at, at, false))
    ensures Counted(CalendarObject(Some(MixedEvent()), []), Some(at), None, r, Instance(at, at, false))
  {
    var c, y := MixedEvent(), Instance(at, at, false);
    MixedSeries(r, HOUR_MS);
    assert WholeSeries(c, r).rdates[0] == y && FromAnRDate(WholeSeries(c, r), at);
    assert ToInstantMs(c.exdate[0], Stored(r)) == ToInstantMs(c.rdate[0].start, Stored(r));
    assert LastAt(c.rdate, r, Length(c, r), false, 0, y) && RDateLost(c, r, 0);
  }

  lemma MixedFits(r: Resolution)
    requires r == FixedZone(1)
    ensures Regular(MixedEvent(), r) && WalksAlike(MixedEvent(), r) && NoPeriodOnTheRule(MixedEvent(), r)
  {
    assert SteadyZone(r, HOUR_MS, HOUR_MS);
    SteadyZoneFits(MixedEvent(), r, HOUR_MS, HOUR_MS);
  }

  /** Such an EXDATE hides the event from a query an hour east of UTC. */
  lemma MixedExdateHides(index: TimeRangeIndex)
    requires Indexes(CalendarObject(Some(MixedEvent()), []), Stored(FixedZone(1)), index)
    ensures var o, r, from := CalendarObject(Some(MixedEvent()), []), FixedZone(1), Some(100 * DAY_MS - HOUR_MS);
            Fits(o, r) && WalksAlike(MixedEvent(), r) && NoPeriodOnTheRule(MixedEvent(), r)
              && Matches(o, from, None, r) && !PassesPrefilter(index, from, None)
  {
    var c, r, at := MixedEvent(), FixedZone(1), 100 * DAY_MS - HOUR_MS;
    var o := CalendarObject(Some(c), []);
    MixedFits(r);
    MixedSpan(o, Stored(r));
    SpanIs(o, Stored(r), index, 0);
    MixedIsLost(r, at);
    assert Astray(o, Some(at), None, r, Instance(at, at, false));
    HidesExactlyWhatWentAstray(o, r, Some(at), None, index);
  }
}
