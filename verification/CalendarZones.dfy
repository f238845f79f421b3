/** Resolving wall-clock times in a zone (packages/core/src/caldav/calendar-zones.ts).

    A zone of an object's own VTIMEZONE is resolved by a binary search over ical.js's reading of it,
    an IANA zone by trying the offsets of the day before and the day after. Both follow section 3.3.5
    of RFC 5545: the first of a repeated time, the offset before the change for a skipped one.
    Times are milliseconds, offsets seconds east of UTC, a wall clock its fields read as UTC. */
module CalendarZones {

  const DAY_MS := 86_400_000
  const DAY_SECONDS := 86_400

  function Abs(x: int): int {
    if x < 0 then -x else x
  }

  function Max(a: int, b: int): int {
    if a > b then a else b
  }

  function Min(a: int, b: int): int {
    if a < b then a else b
  }

  // ----- What RFC 5545 asks for -----

  /** The wall clock `wall` is shown at the instant `u`. */
  ghost predicate ShownAt(offsetAtUtc: int -> int, wall: int, u: int) {
    u + offsetAtUtc(u) * 1000 == wall
  }

  /** `offset` is that of the first instant at which the zone's clocks show `wall`,
      or, if they skip it, the one before the change. */
  ghost predicate FollowsRfc(offsetAtUtc: int -> int, before: int, wall: int, offset: int) {
    if exists u :: ShownAt(offsetAtUtc, wall, u) then
      exists u :: ShownAt(offsetAtUtc, wall, u) && offsetAtUtc(u) == offset
        && forall v :: ShownAt(offsetAtUtc, wall, v) ==> u <= v
    else offset == before
  }

  /** Near `wall` the zone's offset changes once at most: from `b` to `a`, at the instant `t`. */
  ghost predicate OneTransition(offsetAtUtc: int -> int, wall: int, t: int, b: int, a: int) {
    && (forall u :: -DAY_SECONDS <= offsetAtUtc(u) <= DAY_SECONDS)
    && -DAY_SECONDS <= a <= DAY_SECONDS && -DAY_SECONDS <= b <= DAY_SECONDS
    && forall u :: wall - DAY_MS <= u <= wall + DAY_MS ==> offsetAtUtc(u) == if u < t then b else a
  }

  /** What the rule comes to for one transition: the earlier offset until the repeated or skipped time is over. */
  function RuleOffset(wall: int, t: int, b: int, a: int): int {
    if wall < t + Max(a, b) * 1000 then b else a
  }

  lemma RuleFollowsRfc(offsetAtUtc: int -> int, wall: int, t: int, b: int, a: int)
    requires OneTransition(offsetAtUtc, wall, t, b, a)
    ensures forall offset :: FollowsRfc(offsetAtUtc, b, wall, offset) <==> offset == RuleOffset(wall, t, b, a)
  {
    var early, late := wall - b * 1000, wall - a * 1000;
    forall u
      ensures ShownAt(offsetAtUtc, wall, u) <==> (u == early && early < t) || (u == late && late >= t)
    {
      if ShownAt(offsetAtUtc, wall, u) {
        assert offsetAtUtc(u) == if u < t then b else a;
      }
      assert offsetAtUtc(early) == if early < t then b else a;
      assert offsetAtUtc(late) == if late < t then b else a;
    }
    assert early < t ==> ShownAt(offsetAtUtc, wall, early);
    assert late >= t ==> ShownAt(offsetAtUtc, wall, late);
  }

  // ----- IANA zones -----

  /** `IanaTimezone.offsetFor`. */
  function OffsetFor(offsetAtUtc: int -> int, wall: int): (offset: int)
    ensures offset == offsetAtUtc(wall - DAY_MS) || offset == offsetAtUtc(wall + DAY_MS)
  {
    var before, after := offsetAtUtc(wall - DAY_MS), offsetAtUtc(wall + DAY_MS);
    var beforeValid := offsetAtUtc(wall - before * 1000) == before;
    var afterValid := offsetAtUtc(wall - after * 1000) == after;
    if beforeValid && afterValid then Max(before, after)
    else if afterValid then after
    else before
  }

  lemma OffsetForFollowsRule(offsetAtUtc: int -> int, wall: int, t: int, b: int, a: int)
    requires OneTransition(offsetAtUtc, wall, t, b, a)
    ensures OffsetFor(offsetAtUtc, wall) == RuleOffset(wall, t, b, a)
    ensures FollowsRfc(offsetAtUtc, b, wall, OffsetFor(offsetAtUtc, wall))
  {
    RuleFollowsRfc(offsetAtUtc, wall, t, b, a);
    assert offsetAtUtc(wall - b * 1000) == if wall - b * 1000 < t then b else a;
    assert offsetAtUtc(wall - a * 1000) == if wall - a * 1000 < t then b else a;
  }

  // ----- VTIMEZONE zones -----

  /** `j` is a second at which the reading turns to `after`. */
  ghost predicate TurnsAt(at: int -> int, after: int, j: int) {
    at(j) == after && at(j - 1000) != after
  }

  /** What the search settles on: such a second `j` within a day of `wall`, and the offset that follows from it. */
  ghost predicate SettledAt(at: int -> int, wall: int, j: int, offset: int) {
    var before, after := at(wall - DAY_MS), at(wall + DAY_MS);
    && TurnsAt(at, after, j) && wall - DAY_MS < j <= wall + DAY_MS && (j - wall) % 1000 == 0
    && offset == if wall < j + Abs(after - before) * 1000 then before else after
  }

  /** ical.js's reading near `wall` flips once: from `b` to `a`, at the wall clock `j`. */
  ghost predicate FlipsOnce(at: int -> int, wall: int, j: int, b: int, a: int) {
    && (j - wall) % 1000 == 0
    && forall w :: wall - DAY_MS <= w <= wall + DAY_MS ==> at(w) == if w < j then b else a
  }

  /** `vtimezoneOffset`. The search ends at a second at which the reading turns, within a day of `wall`; where
      the reading flips only once and by no more than a day, that is the flip, and the skipped or repeated
      time after it is read with the earlier offset. */
  method VtimezoneOffset(at: int -> int, wall: int) returns (offset: int)
    ensures offset in {at(wall - DAY_MS), at(wall), at(wall + DAY_MS)}
    ensures at(wall - DAY_MS) == at(wall + DAY_MS) ==> offset == at(wall)
    ensures at(wall - DAY_MS) != at(wall + DAY_MS) ==> exists j :: SettledAt(at, wall, j, offset)
    ensures forall j, b, a :: FlipsOnce(at, wall, j, b, a) && Abs(a - b) <= DAY_SECONDS ==>
              offset == if wall < j + Abs(a - b) * 1000 then b else a
  {
    var before, after := at(wall - DAY_MS), at(wall + DAY_MS);
    if before == after {
      return at(wall);
    }
    var low, high := wall - DAY_MS, wall + DAY_MS;
    while high - low > 1000
      invariant wall - DAY_MS <= low < high <= wall + DAY_MS
      invariant (low - wall) % 1000 == 0 && (high - wall) % 1000 == 0
      invariant at(low) != after && at(high) == after
    {
      var middle := low + (high - low) / 2000 * 1000;
      if at(middle) == after {
        high := middle;
      } else {
        low := middle;
      }
    }
    assert high - low == 1000;
    assert TurnsAt(at, after, high);
    offset := if wall < high + Abs(after - before) * 1000 then before else after;
    assert SettledAt(at, wall, high, offset);
    forall j, b, a | FlipsOnce(at, wall, j, b, a)
      ensures high == j && before == b && after == a
    {
      assert at(high) == if high < j then b else a;
      assert at(low) == if low < j then b else a;
    }
  }

  /** The two resolvers of the same zone agree: where ical.js's reading flips at the start of the skipped or
      repeated time, as the search relies on, its result is `OffsetFor`'s, and what RFC 5545 asks for. */
  method ResolveBoth(at: int -> int, offsetAtUtc: int -> int, wall: int, ghost t: int, ghost b: int, ghost a: int)
      returns (vtimezone: int, iana: int)
    requires OneTransition(offsetAtUtc, wall, t, b, a) && Abs(a - b) <= DAY_SECONDS
    requires FlipsOnce(at, wall, t + Min(a, b) * 1000, b, a)
    ensures vtimezone == iana && FollowsRfc(offsetAtUtc, b, wall, vtimezone)
  {
    vtimezone := VtimezoneOffset(at, wall);
    iana := OffsetFor(offsetAtUtc, wall);
    OffsetForFollowsRule(offsetAtUtc, wall, t, b, a);
    assert Min(a, b) + Abs(a - b) == Max(a, b);
  }
}
