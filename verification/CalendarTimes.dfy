/** Turning iCalendar times into instants (packages/core/src/caldav/calendar-time.ts), and the components they occur in.
    A time's fields are kept as `wall`, the milliseconds they would be if read as UTC. */
module CalendarTimes {
  import opened Wrappers

  const DAY_MS := 86_400_000
  const HOUR_MS := 3_600_000
  const MINUTE_MS := 60_000

  datatype TimeKind = Date | Floating | Utc | Zoned

  datatype CalendarTime = CalendarTime(kind: TimeKind, wall: int, tzid: Option<string>)

  /** `offsetSeconds(tzid, wall)` is the zone registry: the offset of a zone at a wall clock, east of UTC. */
  datatype Resolution = Resolution(offsetSeconds: (string, int) -> int, floatingTimeZone: Option<string>)

  datatype Transparency = Opaque | Transparent

  datatype Status = Tentative | Confirmed | Cancelled

  /** An RDATE; a PERIOD has an `end` or a `duration` (in milliseconds). */
  datatype RecurrenceDate = RecurrenceDate(start: CalendarTime, end: Option<CalendarTime>, duration: Option<int>)

  datatype Frequency = Secondly | Minutely | Hourly | Daily | Weekly | Monthly | Yearly

  /** What a rule's iterator yields: wall clocks `at(0)`, `at(1)`, ... up to `length`, or for ever. */
  datatype Walk = Walk(length: Option<nat>, at: nat -> int) {
    predicate Has(i: nat) {
      length.None? || i < length.value
    }
  }

  /** An RRULE with what the library makes of it: `walk(zone, wall)` are the wall clocks it yields for a DTSTART at
      `wall` in `zone`, where none is UTC. The zone matters: UNTIL is compared as an instant.
      `interval` and `count` are zero where the rule has none. */
  datatype Rule = Rule(freq: Frequency, interval: nat, count: nat, until: Option<CalendarTime>,
                       walk: (Option<string>, int) -> Walk) {
    predicate IsFinite() {
      count > 0 || until.Some?
    }
  }

  datatype Component = Component(
    dtstart: CalendarTime,
    dtend: Option<CalendarTime>,
    duration: Option<int>,
    isAllDay: bool,
    rrule: Option<Rule>,
    rdate: seq<RecurrenceDate>,
    exdate: seq<CalendarTime>,
    recurrenceId: Option<CalendarTime>,
    transparency: Transparency,
    status: Option<Status>)

  datatype CalendarObject = CalendarObject(master: Option<Component>, overrides: seq<Component>)

  /** The zone that the fields of `t` are read in; none is UTC. */
  function ZoneOf(t: CalendarTime, r: Resolution): Option<string> {
    if t.kind.Utc? then None else if t.kind.Zoned? then t.tzid else r.floatingTimeZone
  }

  /** How far east of UTC the fields of `t` are read, in milliseconds. */
  function OffsetMs(t: CalendarTime, r: Resolution): int {
    var tzid := ZoneOf(t, r);
    if tzid.None? then 0 else r.offsetSeconds(tzid.value, t.wall) * 1000
  }

  function ToInstantMs(t: CalendarTime, r: Resolution): int {
    t.wall - OffsetMs(t, r)
  }

  function AddWallDays(t: CalendarTime, days: int): CalendarTime {
    t.(wall := t.wall + days * DAY_MS)
  }

  function StartMs(c: Component, r: Resolution): int {
    ToInstantMs(c.dtstart, r)
  }

  /** The effective end (section 9.9 of RFC 4791). */
  function EndMs(c: Component, r: Resolution): int {
    if c.dtend.Some? then ToInstantMs(c.dtend.value, r)
    else if c.duration.Some? then StartMs(c, r) + c.duration.value
    else if c.dtstart.kind.Date? then ToInstantMs(AddWallDays(c.dtstart, 1), r)
    else StartMs(c, r)
  }

  function Length(c: Component, r: Resolution): int {
    EndMs(c, r) - StartMs(c, r)
  }

  /** A UTC time is the instant it names. Any other, read in a zone, is the instant at which a clock that is ahead of
      UTC by the zone's offset there shows it; a floating time or a date is read in the zone of choice, or as UTC. */
  lemma TimesAreRead(t: CalendarTime, r: Resolution)
    ensures t.kind.Utc? ==> ToInstantMs(t, r) == t.wall
    ensures t.kind.Zoned? && t.tzid.Some? ==>
              ToInstantMs(t, r) + r.offsetSeconds(t.tzid.value, t.wall) * 1000 == t.wall
    ensures (t.kind.Floating? || t.kind.Date?) && r.floatingTimeZone.None? ==> ToInstantMs(t, r) == t.wall
    ensures (t.kind.Floating? || t.kind.Date?) && r.floatingTimeZone.Some? ==>
              ToInstantMs(t, r) + r.offsetSeconds(r.floatingTimeZone.value, t.wall) * 1000 == t.wall
  {
  }

  /** Section 9.9 of RFC 4791: a DTEND is the end; a DURATION ends that much after the start; a date without either
      ends at the midnight 24 hours on by the clock of its zone; any other start without either is its own end. */
  lemma EndsAre(c: Component, r: Resolution)
    ensures c.dtend.Some? ==> EndMs(c, r) == ToInstantMs(c.dtend.value, r)
    ensures c.dtend.None? && c.duration.Some? ==> EndMs(c, r) - ToInstantMs(c.dtstart, r) == c.duration.value
    ensures c.dtend.None? && c.duration.None? && c.dtstart.kind.Date? ==>
              EndMs(c, r) == ToInstantMs(CalendarTime(Date, c.dtstart.wall + 86_400_000, c.dtstart.tzid), r)
    ensures c.dtend.None? && c.duration.None? && !c.dtstart.kind.Date? ==> EndMs(c, r) == ToInstantMs(c.dtstart, r)
  {
  }
}
