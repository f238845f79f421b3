/** The busy time of a calendar (packages/core/src/caldav/free-busy-query-report.ts): from the stored events
    through prefilter, access check and expansion to the coalesced blocks. */
module BusyTime {
  import opened CalendarTimes
  import opened FreeBusy
  import opened QueryPaging
  import opened RecurrenceExpansion
  import opened RecurrenceSet
  import opened Sequences
  import opened TimeRangeIndexing
  import opened Wrappers

  /** The table of section 7.10 of RFC 4791, for each occurrence by itself. */
  function BusyTypeOf(x: Occurrence): Option<FbType> {
    if x.transparency != Opaque || x.status == Some(Cancelled) then None
    else if x.status == Some(Tentative) then Some(BusyTentative)
    else Some(Busy)
  }

  ghost predicate Stands(x: BusyInterval, y: Occurrence) {
    BusyTypeOf(y) == Some(x.fbtype) && x.start == y.start && x.end == y.end
  }

  ghost predicate Expands(o: CalendarObject, from: int, to: int, r: Resolution, outcome: Outcome<seq<Occurrence>>) {
    ExpandsTo(o, Some(from), Some(to), r, MAX_RECURRENCE_INSTANCES, WallOf(o, r, Some(from)), outcome)
  }

  /** `x` is busy time of `o`: an occurrence of the expansion that counts as busy. */
  ghost predicate Contributes(o: CalendarObject, from: int, to: int, r: Resolution, x: BusyInterval) {
    exists occurrences, y :: Expands(o, from, to, r, Success(occurrences)) && y in occurrences && Stands(x, y)
  }

  /** The table by its columns: only what is opaque blocks time, tentatively if it is tentative, and not at all if it
      was cancelled; without a STATUS it counts as confirmed. */
  predicate Blocks(y: Occurrence, t: FbType) {
    && y.transparency.Opaque?
    && match t
       case Busy => y.status.None? || y.status.value.Confirmed?
       case BusyTentative => y.status.Some? && y.status.value.Tentative?
  }

  /** What an event contributes, told by what its occurrences are. */
  lemma ContributionIs(o: CalendarObject, from: int, to: int, r: Resolution, x: BusyInterval)
    ensures Contributes(o, from, to, r, x) <==>
              exists occurrences, y :: Expands(o, from, to, r, Success(occurrences)) && y in occurrences
                                       && Blocks(y, x.fbtype) && x.start == y.start && x.end == y.end
  {
    assert forall y :: BusyTypeOf(y) == Some(x.fbtype) <==> Blocks(y, x.fbtype);
  }

  /** `busyIntervalsOf`: an object that is too long to expand contributes nothing. */
  method BusyIntervalsOf(o: CalendarObject, from: int, to: int, r: Resolution) returns (intervals: seq<BusyInterval>)
    ensures forall x :: x in intervals <==> Contributes(o, from, to, r, x)
  {
    intervals := [];
    var outcome := ExpandOccurrences(o, Some(from), Some(to), r, MAX_RECURRENCE_INSTANCES);
    assert Expands(o, from, to, r, outcome);
    if outcome.Success? {
      intervals := BusyOccurrences(outcome.value);
    }
    ghost var wall := WallOf(o, r, Some(from));
    forall x
      ensures x in intervals <==> Contributes(o, from, to, r, x)
    {
      if Contributes(o, from, to, r, x) {
        var occurrences, y :| Expands(o, from, to, r, Success(occurrences)) && y in occurrences && Stands(x, y);
        ExpansionIsUnique(o, Some(from), Some(to), r, MAX_RECURRENCE_INSTANCES, wall, outcome, Success(occurrences));
      }
    }
  }

  ghost predicate AmongBusy(occurrences: seq<Occurrence>, x: BusyInterval) {
    exists y :: y in occurrences && Stands(x, y)
  }

  lemma AmongMore(occurrences: seq<Occurrence>, y: Occurrence)
    ensures forall x :: AmongBusy(occurrences + [y], x) <==> AmongBusy(occurrences, x) || Stands(x, y)
  {
    assert forall z :: z in occurrences + [y] <==> z in occurrences || z == y;
  }

  method BusyOccurrences(occurrences: seq<Occurrence>) returns (intervals: seq<BusyInterval>)
    ensures forall x :: x in intervals <==> AmongBusy(occurrences, x)
  {
    intervals := [];
    for n := 0 to |occurrences|
      invariant forall x :: x in intervals <==> AmongBusy(occurrences[..n], x)
    {
      var fbtype := BusyTypeOf(occurrences[n]);
      assert occurrences[..n + 1] == occurrences[..n] + [occurrences[n]];
      AmongMore(occurrences[..n], occurrences[n]);
      if fbtype.Some? {
        intervals := intervals + [BusyInterval(occurrences[n].start, occurrences[n].end, fbtype.value)];
      }
    }
    assert occurrences[..|occurrences|] == occurrences;
  }

  /** Busy time of one of the events that may be read. */
  ghost predicate BusyIn(events: seq<StoredEvent>, readable: StoredEvent -> bool, from: int, to: int, r: Resolution,
                         x: BusyInterval) {
    exists e :: e in events && readable(e) && Contributes(e.event, from, to, r, x)
  }

  lemma BusyInMore(events: seq<StoredEvent>, e: StoredEvent, readable: StoredEvent -> bool, from: int, to: int,
                   r: Resolution)
    ensures forall x :: BusyIn(events + [e], readable, from, to, r, x)
                        <==> (BusyIn(events, readable, from, to, r, x)
                              || (readable(e) && Contributes(e.event, from, to, r, x)))
  {
    assert forall f :: f in events + [e] <==> f in events || f == e;
  }

  /** `collectCalendarBusyIntervals` after the prefilter: page by page, every event that may be read. */
  method CollectPages(candidates: seq<StoredEvent>, readable: StoredEvent -> bool, from: int, to: int, r: Resolution)
    returns (intervals: seq<BusyInterval>)
    ensures forall x :: x in intervals <==> BusyIn(candidates, readable, from, to, r, x)
  {
    intervals := [];
    var offset := 0;
    while true
      invariant offset <= |candidates|
      invariant forall x :: x in intervals <==> BusyIn(candidates[..offset], readable, from, to, r, x)
      decreases |candidates| - offset
    {
      var page := Page(candidates, offset, CALENDAR_PAGE_SIZE);
      if |page| == 0 {
        break;
      }
      for k := 0 to |page|
        invariant forall x :: x in intervals <==> BusyIn(candidates[..offset + k], readable, from, to, r, x)
      {
        assert candidates[..offset + k + 1] == candidates[..offset + k] + [page[k]];
        BusyInMore(candidates[..offset + k], page[k], readable, from, to, r);
        if readable(page[k]) {
          var more := BusyIntervalsOf(page[k].event, from, to, r);
          intervals := intervals + more;
        }
      }
      offset := offset + |page|;
      if |page| < CALENDAR_PAGE_SIZE {
        break;
      }
    }
    assert candidates[..offset] == candidates;
  }

  /** Every event that may be read and matches the range is indexed well for it. */
  ghost predicate AllWellIndexed(rows: seq<StoredEvent>, readable: StoredEvent -> bool, from: int, to: int,
                                 r: Resolution) {
    forall e :: e in rows && readable(e) && Matches(e.event, Some(from), Some(to), r) ==>
      WellIndexed(e, Some(from), Some(to), r)
  }

  /** `collectCalendarBusyIntervals`: the prefilter hides no busy time. */
  method CollectBusyIntervals(rows: seq<StoredEvent>, readable: StoredEvent -> bool, from: int, to: int, r: Resolution)
    returns (intervals: seq<BusyInterval>)
    requires AllWellIndexed(rows, readable, from, to, r)
    ensures forall x :: x in intervals <==> BusyIn(rows, readable, from, to, r, x)
  {
    var candidates := Filter(Prefilter(Some(from), Some(to)), rows);
    intervals := CollectPages(candidates, readable, from, to, r);
    FilterMembers(Prefilter(Some(from), Some(to)), rows);
    forall x | BusyIn(rows, readable, from, to, r, x)
      ensures BusyIn(candidates, readable, from, to, r, x)
    {
      var e :| e in rows && readable(e) && Contributes(e.event, from, to, r, x);
      ContributorMatches(e.event, from, to, r, x);
      PrefilterIsSound(e.event, r, Some(from), Some(to), e.index);
      assert Prefilter(Some(from), Some(to))(e);
    }
  }

  lemma ContributorMatches(o: CalendarObject, from: int, to: int, r: Resolution, x: BusyInterval)
    requires Contributes(o, from, to, r, x)
    ensures Matches(o, Some(from), Some(to), r)
  {
    var occurrences, y :| Expands(o, from, to, r, Success(occurrences)) && y in occurrences && Stands(x, y);
    assert occurrences != [];
  }

  /** Busy at `p`, according to some event that may be read. */
  ghost predicate BusyAt(rows: seq<StoredEvent>, readable: StoredEvent -> bool, from: int, to: int, r: Resolution,
                         t: FbType, p: real) {
    exists x :: BusyIn(rows, readable, from, to, r, x) && x.fbtype == t && Within(x, p)
  }

  /** The report: its blocks of each type cover exactly the busy time of the readable events, without overlapping
      or touching, and ascend overall. If no busy time ends before it starts, no block does. */
  method ReportBusyTime(rows: seq<StoredEvent>, readable: StoredEvent -> bool, from: int, to: int, r: Resolution)
    returns (blocks: seq<BusyInterval>)
    requires AllWellIndexed(rows, readable, from, to, r)
    ensures Ordered(ByStart, blocks)
    ensures forall t :: Gapped(OfType(t, blocks))
    ensures forall t, p :: Covers(OfType(t, blocks), p) <==> BusyAt(rows, readable, from, to, r, t, p)
    ensures BusyRunsForward(rows, readable, from, to, r) ==> forall t :: Separated(OfType(t, blocks))
  {
    var intervals := CollectBusyIntervals(rows, readable, from, to, r);
    blocks := Coalesce(intervals);
    if BusyRunsForward(rows, readable, from, to, r) {
      forall i | 0 <= i < |intervals|
        ensures intervals[i].start <= intervals[i].end
      {
        assert intervals[i] in intervals;
      }
    }
    forall t
      ensures Ordered(ByStart, blocks) && Gapped(OfType(t, blocks))
      ensures SameCoverage(OfType(t, intervals), OfType(t, blocks))
      ensures Forward(intervals) ==> Separated(OfType(t, blocks))
    {
      CoalesceCorrect(intervals, t, []);
    }
    assert Ordered(ByStart, blocks) by {
      CoalesceCorrect(intervals, Busy, []);
    }
    forall t, p
      ensures Covers(OfType(t, intervals), p) <==> BusyAt(rows, readable, from, to, r, t, p)
    {
      CoversByMember(intervals, t, p);
    }
  }

  // ----- Events that end no earlier than they start -----

  ghost predicate BusyRunsForward(rows: seq<StoredEvent>, readable: StoredEvent -> bool, from: int, to: int,
                                  r: Resolution) {
    forall x :: BusyIn(rows, readable, from, to, r, x) ==> x.start <= x.end
  }

  predicate PeriodRunsForward(d: RecurrenceDate, r: Resolution) {
    if d.end.Some? then ToInstantMs(d.start, r) <= ToInstantMs(d.end.value, r)
    else d.duration.None? || d.duration.value >= 0
  }

  /** No component ends before it starts, and no PERIOD does. */
  predicate RunsForward(o: CalendarObject, r: Resolution) {
    && (forall i :: 0 <= i < |o.overrides| ==> Length(o.overrides[i], r) >= 0)
    && (o.master.Some? ==>
          && Length(o.master.value, r) >= 0
          && forall j :: 0 <= j < |o.master.value.rdate| ==> PeriodRunsForward(o.master.value.rdate[j], r))
  }

  lemma InstanceRunsForward(o: CalendarObject, r: Resolution, wall: int, y: Instance)
    requires o.master.Some? && RunsForward(o, r) && IsInstance(SeriesOf(o.master.value, r, wall), y)
    ensures y.start <= y.end
  {
    var c := o.master.value;
    if !FromTheRule(SeriesOf(c, r, wall), y.start) {
      RDatesAscend(c, r);
      assert y in RDateInstances(c, r);
      var j: nat :| LastAt(c.rdate, r, Length(c, r), c.dtend.Some?, j, y);
      assert PeriodRunsForward(c.rdate[j], r);
    }
  }

  lemma OccurrencesRunForward(o: CalendarObject, from: int, to: int, r: Resolution, x: BusyInterval)
    requires RunsForward(o, r) && Contributes(o, from, to, r, x)
    ensures x.start <= x.end
  {
    var occurrences, y :| Expands(o, from, to, r, Success(occurrences)) && y in occurrences && Stands(x, y);
    var wall := WallOf(o, r, Some(from));
    OccurrencesAre(o, Some(from), Some(to), r, MAX_RECURRENCE_INSTANCES, wall, occurrences);
    if IsOverride(o, Some(from), Some(to), r, y) {
      var i :| 0 <= i < |o.overrides| && OverrideOverlaps(o.overrides[i], Some(from), Some(to), r, y);
      assert Length(o.overrides[i], r) >= 0;
    } else {
      var z :| CountedInstance(o.master.value, o.overrides, Some(from), Some(to), r, wall, z)
               && y == OccurrenceOf(o.master.value, z.start, z.end, false);
      InstanceRunsForward(o, r, wall, z);
    }
  }

  /** So of events that run forward in the query's reading all busy time does. */
  lemma EventsRunForward(rows: seq<StoredEvent>, readable: StoredEvent -> bool, from: int, to: int, r: Resolution)
    requires forall e :: e in rows && readable(e) ==> RunsForward(e.event, r)
    ensures BusyRunsForward(rows, readable, from, to, r)
  {
    forall x | BusyIn(rows, readable, from, to, r, x)
      ensures x.start <= x.end
    {
      var e :| e in rows && readable(e) && Contributes(e.event, from, to, r, x);
      OccurrencesRunForward(e.event, from, to, r, x);
    }
  }

  /** Floating, from half past two to three. */
  function HalfAnHour(): Component {
    Component(CalendarTime(Floating, 150 * MINUTE_MS, None), Some(CalendarTime(Floating, 180 * MINUTE_MS, None)), None,
              false, None, [], [], None, Opaque, None)
  }

  /** An upload is checked in the stored reading. In a zone that skips the time from two to three, this event passes
      that check, and for a query there it ends half an hour before it starts. */
  lemma SpringGapTurnsAround()
    ensures var c, r := HalfAnHour(), SpringGap().(floatingTimeZone := Some("Gap"));
            Length(c, Stored(r)) == 30 * MINUTE_MS && Length(c, r) == -30 * MINUTE_MS
  {
    var c, r := HalfAnHour(), SpringGap().(floatingTimeZone := Some("Gap"));
    assert OffsetMs(c.dtstart, r) == HOUR_MS;
    assert OffsetMs(c.dtend.value, r) == 2 * HOUR_MS;
  }

  lemma CoversByMember(intervals: seq<BusyInterval>, t: FbType, p: real)
    ensures Covers(OfType(t, intervals), p) <==> exists x :: x in intervals && x.fbtype == t && Within(x, p)
  {
    FilterMembers(Has(t), intervals);
    var xs := OfType(t, intervals);
    assert forall x :: Has(t)(x) <==> x.fbtype == t;
    if i :| 0 <= i < |xs| && Within(xs[i], p) {
      assert xs[i] in xs;
    }
    if x :| x in intervals && x.fbtype == t && Within(x, p) {
      assert x in xs;
      var i :| 0 <= i < |xs| && xs[i] == x;
    }
  }
}
