/** The merge at the heart of packages/core/src/caldav/expand-recurrence.ts: the instances of a rule and the
    RDATEs, in order, without the EXDATEs. The rule's iterator is foreign code and stands here as any sequence
    of instants, finite or not, in whatever order: a wall clock that a zone skips can map backwards. */
module RecurrenceSet {
  import opened CalendarTimes
  import opened Wrappers

  datatype Outcome<T> = Success(value: T) | LimitExceeded

  datatype Instance = Instance(start: int, end: int, hasExplicitEnd: bool)

  /** A master's recurrence set before it is merged: the rule's instants, the RDATEs in ascending order, the excluded
      instants, and what every rule instance shares. DTSTART alone, without a rule, does not count against the limit. */
  datatype Series = Series(rule: Walk, counted: bool, rdates: seq<Instance>, excluded: set<int>, length: int,
                           hasExplicitEnd: bool) {
    function FromRule(i: nat): Instance {
      Instance(rule.at(i), rule.at(i) + length, hasExplicitEnd)
    }
  }

  ghost predicate Ascending(instances: seq<Instance>) {
    forall i, j :: 0 <= i < j < |instances| ==> instances[i].start < instances[j].start
  }

  ghost predicate WellFormed(s: Series) {
    Ascending(s.rdates) && (s.counted || s.rule.length.Some?)
  }

  // ----- What the set is -----

  /** Element `i` lies after everything the rule yielded before it. */
  ghost predicate Record(s: Series, i: nat) {
    s.rule.Has(i) && forall j :: 0 <= j < i ==> s.rule.at(j) < s.rule.at(i)
  }

  ghost predicate FromTheRule(s: Series, t: int) {
    exists i :: Record(s, i) && s.rule.at(i) == t
  }

  ghost predicate FromAnRDate(s: Series, t: int) {
    exists k :: 0 <= k < |s.rdates| && s.rdates[k].start == t
  }

  /** An instance of the set starts at `t`. */
  ghost predicate InSet(s: Series, t: int) {
    t !in s.excluded && (FromTheRule(s, t) || FromAnRDate(s, t))
  }

  /** `x` is that instance: the rule's where both have one. */
  ghost predicate IsInstance(s: Series, x: Instance) {
    && InSet(s, x.start)
    && if FromTheRule(s, x.start) then x == Instance(x.start, x.start + s.length, s.hasExplicitEnd) else x in s.rdates
  }

  predicate Before(t: int, to: Option<int>) {
    to.None? || t < to.value
  }

  /** Exactly the instances of the set that start before `to`, in strictly ascending order. */
  ghost predicate Enumerates(s: Series, to: Option<int>, instances: seq<Instance>) {
    && Ascending(instances)
    && (forall k :: 0 <= k < |instances| ==> IsInstance(s, instances[k]) && Before(instances[k].start, to))
    && (forall t :: InSet(s, t) && Before(t, to) ==> Yielded(instances, t))
  }

  ghost predicate Yielded(instances: seq<Instance>, t: int) {
    exists k :: 0 <= k < |instances| && instances[k].start == t
  }

  // ----- How far the rule is drawn from -----

  /** The consumer has stopped by the time element `i` would be taken: an instance at or after `to`
      came earlier from the rule, or an RDATE did that some element up to `i` lies beyond. */
  ghost predicate StoppedBefore(s: Series, to: Option<int>, i: nat) {
    to.Some? &&
    ((exists j :: 0 <= j < i && Record(s, j) && s.rule.at(j) >= to.value && s.rule.at(j) !in s.excluded) ||
     (exists j, k :: 0 <= j <= i && 0 <= k < |s.rdates| && s.rule.at(j) > s.rdates[k].start
                     && s.rdates[k].start >= to.value && s.rdates[k].start !in s.excluded))
  }

  /** The rule is asked for element `i`: each one taken makes the merge draw the next. */
  ghost predicate Drawn(s: Series, to: Option<int>, i: nat) {
    s.rule.Has(i) && (i == 0 || !StoppedBefore(s, to, i - 1))
  }

  /** One element more than `limit` is drawn. */
  ghost predicate Exceeds(s: Series, to: Option<int>, limit: nat) {
    s.counted && Drawn(s, to, limit)
  }

  // ----- The walk -----

  /** After `k` elements of the rule and `r` RDATEs were taken. `last` is the latest start among them. */
  ghost predicate Walked(s: Series, to: Option<int>, k: nat, r: nat, last: Option<int>, results: seq<Instance>) {
    && r <= |s.rdates| && (k > 0 ==> s.rule.Has(k - 1))
    && TakenInOrder(s, k, r)
    && LastIs(s, k, r, last)
    && Ascending(results)
    && (forall x :: 0 <= x < |results| ==>
          IsInstance(s, results[x]) && Before(results[x].start, to) && last.Some? && results[x].start <= last.value)
    && (forall j :: 0 <= j < k ==> RuleDone(s, results, j))
    && (forall i :: 0 <= i < r ==> RDateDone(s, results, i))
  }

  /** Nothing taken lies beyond what was not: so far the merge is in order. */
  ghost predicate TakenInOrder(s: Series, k: nat, r: nat) {
    && (forall j, i :: 0 <= j < k && r <= i < |s.rdates| ==> s.rule.at(j) <= s.rdates[i].start)
    && (forall m: nat, i :: k <= m && Record(s, m) && 0 <= i < r && i < |s.rdates| ==> s.rule.at(m) > s.rdates[i].start)
  }

  ghost predicate LastIs(s: Series, k: nat, r: nat, last: Option<int>) {
    && r <= |s.rdates|
    && (last.None? <==> k == 0 && r == 0)
    && (last.Some? ==>
          && (forall j :: 0 <= j < k ==> s.rule.at(j) <= last.value)
          && (forall i :: 0 <= i < r ==> s.rdates[i].start <= last.value)
          && ((exists j :: 0 <= j < k && s.rule.at(j) == last.value)
              || (exists i :: 0 <= i < r && s.rdates[i].start == last.value)))
  }

  ghost predicate RuleDone(s: Series, results: seq<Instance>, j: nat) {
    Record(s, j) && s.rule.at(j) !in s.excluded ==> Yielded(results, s.rule.at(j))
  }

  ghost predicate RDateDone(s: Series, results: seq<Instance>, i: nat) {
    i < |s.rdates| && s.rdates[i].start !in s.excluded ==> Yielded(results, s.rdates[i].start)
  }

  lemma RuleIsRecord(s: Series, k: nat, r: nat, last: Option<int>)
    requires s.rule.Has(k) && TakenInOrder(s, k, r) && LastIs(s, k, r, last)
    ensures Record(s, k) <==> last.None? || s.rule.at(k) > last.value
  {
  }

  lemma YieldKeeps(s: Series, results: seq<Instance>, x: Instance)
    ensures forall j :: RuleDone(s, results, j) ==> RuleDone(s, results + [x], j)
    ensures forall i :: RDateDone(s, results, i) ==> RDateDone(s, results + [x], i)
  {
    forall t | Yielded(results, t)
      ensures Yielded(results + [x], t)
    {
      var k :| 0 <= k < |results| && results[k].start == t;
      assert (results + [x])[k].start == t;
    }
  }

  // ----- Taking the rule's next element -----

  ghost predicate RuleIsNext(s: Series, k: nat, r: nat) {
    s.rule.Has(k) && (r < |s.rdates| ==> s.rule.at(k) <= s.rdates[r].start)
  }

  ghost predicate RDateIsNext(s: Series, k: nat, r: nat) {
    r < |s.rdates| && (s.rule.Has(k) ==> s.rule.at(k) > s.rdates[r].start)
  }

  lemma OrderAfterRule(s: Series, k: nat, r: nat)
    requires WellFormed(s) && TakenInOrder(s, k, r) && RuleIsNext(s, k, r)
    ensures TakenInOrder(s, k + 1, r)
  {
    forall i | r <= i < |s.rdates|
      ensures s.rule.at(k) <= s.rdates[i].start
    {
      assert r < i ==> s.rdates[r].start < s.rdates[i].start;
    }
  }

  lemma RuleSkipped(s: Series, to: Option<int>, k: nat, r: nat, last: Option<int>, results: seq<Instance>)
    requires WellFormed(s) && Walked(s, to, k, r, last, results) && RuleIsNext(s, k, r)
    requires last.Some? && s.rule.at(k) <= last.value
    ensures Walked(s, to, k + 1, r, last, results)
  {
    OrderAfterRule(s, k, r);
    RuleIsRecord(s, k, r, last);
    assert !Record(s, k);
  }

  lemma RuleExcluded(s: Series, to: Option<int>, k: nat, r: nat, last: Option<int>, results: seq<Instance>)
    requires WellFormed(s) && Walked(s, to, k, r, last, results) && RuleIsNext(s, k, r)
    requires (last.None? || s.rule.at(k) > last.value) && s.rule.at(k) in s.excluded
    ensures Walked(s, to, k + 1, r, Some(s.rule.at(k)), results)
  {
    OrderAfterRule(s, k, r);
  }

  lemma RuleYielded(s: Series, to: Option<int>, k: nat, r: nat, last: Option<int>, results: seq<Instance>)
    requires WellFormed(s) && Walked(s, to, k, r, last, results) && RuleIsNext(s, k, r)
    requires (last.None? || s.rule.at(k) > last.value) && s.rule.at(k) !in s.excluded && Before(s.rule.at(k), to)
    ensures Walked(s, to, k + 1, r, Some(s.rule.at(k)), results + [s.FromRule(k)])
  {
    var t, x := s.rule.at(k), s.FromRule(k);
    OrderAfterRule(s, k, r);
    RuleIsRecord(s, k, r, last);
    assert Record(s, k) && FromTheRule(s, t);
    YieldKeeps(s, results, x);
    assert IsInstance(s, x);
    assert (results + [x])[|results|].start == t && Yielded(results + [x], t);
  }

  lemma RuleStops(s: Series, to: Option<int>, k: nat, r: nat, last: Option<int>, results: seq<Instance>)
    requires WellFormed(s) && Walked(s, to, k, r, last, results) && RuleIsNext(s, k, r)
    requires to.Some? && s.rule.at(k) >= to.value
    ensures Enumerates(s, to, results)
  {
    OrderAfterRule(s, k, r);
    forall t | InSet(s, t) && Before(t, to)
      ensures Yielded(results, t)
    {
      if i :| 0 <= i < |s.rdates| && s.rdates[i].start == t {
        assert i < r ==> RDateDone(s, results, i);
      } else {
        var j: nat :| Record(s, j) && s.rule.at(j) == t;
        assert j < k ==> RuleDone(s, results, j);
      }
    }
  }

  // ----- Taking the next RDATE -----

  lemma OrderAfterRDate(s: Series, k: nat, r: nat)
    requires WellFormed(s) && TakenInOrder(s, k, r) && RDateIsNext(s, k, r)
    ensures TakenInOrder(s, k, r + 1)
  {
    forall m: nat | k <= m && Record(s, m)
      ensures s.rule.at(m) > s.rdates[r].start
    {
      assert s.rule.Has(k);
    }
  }

  lemma {:induction false} FirstToReach(s: Series, k: nat, t: int)
    requires k > 0 ==> s.rule.Has(k - 1)
    requires forall j :: 0 <= j < k ==> s.rule.at(j) <= t
    requires exists j :: 0 <= j < k && s.rule.at(j) == t
    ensures exists j :: 0 <= j < k && Record(s, j) && s.rule.at(j) == t
  {
    if exists j :: 0 <= j < k - 1 && s.rule.at(j) == t {
      FirstToReach(s, k - 1, t);
    } else {
      assert Record(s, k - 1) && s.rule.at(k - 1) == t;
    }
  }

  lemma RDateSkipped(s: Series, to: Option<int>, k: nat, r: nat, last: Option<int>, results: seq<Instance>)
    requires WellFormed(s) && Walked(s, to, k, r, last, results) && RDateIsNext(s, k, r)
    requires last.Some? && s.rdates[r].start <= last.value
    ensures Walked(s, to, k, r + 1, last, results)
  {
    OrderAfterRDate(s, k, r);
    var t := s.rdates[r].start;
    assert last.value == t;
    FirstToReach(s, k, t);
    var j :| 0 <= j < k && Record(s, j) && s.rule.at(j) == t;
    assert RuleDone(s, results, j);
  }

  /** An RDATE beyond everything taken is not an instant of the rule: one that lies there too was due before it. */
  lemma NotFromTheRule(s: Series, k: nat, r: nat, last: Option<int>)
    requires TakenInOrder(s, k, r + 1) && LastIs(s, k, r, last) && r < |s.rdates|
    requires last.None? || s.rdates[r].start > last.value
    ensures !FromTheRule(s, s.rdates[r].start)
  {
    forall m: nat | Record(s, m)
      ensures s.rule.at(m) != s.rdates[r].start
    {
      if m < k {
        assert s.rule.at(m) <= last.value;
      }
    }
  }

  lemma RDateExcluded(s: Series, to: Option<int>, k: nat, r: nat, last: Option<int>, results: seq<Instance>)
    requires WellFormed(s) && Walked(s, to, k, r, last, results) && RDateIsNext(s, k, r)
    requires (last.None? || s.rdates[r].start > last.value) && s.rdates[r].start in s.excluded
    ensures Walked(s, to, k, r + 1, Some(s.rdates[r].start), results)
  {
    OrderAfterRDate(s, k, r);
  }

  lemma RDateYielded(s: Series, to: Option<int>, k: nat, r: nat, last: Option<int>, results: seq<Instance>)
    requires WellFormed(s) && Walked(s, to, k, r, last, results) && RDateIsNext(s, k, r)
    requires (last.None? || s.rdates[r].start > last.value) && s.rdates[r].start !in s.excluded
    requires Before(s.rdates[r].start, to)
    ensures Walked(s, to, k, r + 1, Some(s.rdates[r].start), results + [s.rdates[r]])
  {
    var x := s.rdates[r];
    OrderAfterRDate(s, k, r);
    NotFromTheRule(s, k, r, last);
    YieldKeeps(s, results, x);
    assert FromAnRDate(s, x.start);
    assert IsInstance(s, x);
    assert (results + [x])[|results|].start == x.start && Yielded(results + [x], x.start);
  }

  lemma RDateStops(s: Series, to: Option<int>, k: nat, r: nat, last: Option<int>, results: seq<Instance>)
    requires WellFormed(s) && Walked(s, to, k, r, last, results) && RDateIsNext(s, k, r)
    requires to.Some? && s.rdates[r].start >= to.value
    ensures Enumerates(s, to, results)
  {
    OrderAfterRDate(s, k, r);
    assert forall i :: r <= i < |s.rdates| ==> s.rdates[i].start >= to.value;
    forall t | InSet(s, t) && Before(t, to)
      ensures Yielded(results, t)
    {
      if i :| 0 <= i < |s.rdates| && s.rdates[i].start == t {
        assert RDateDone(s, results, i);
      } else {
        var j: nat :| Record(s, j) && s.rule.at(j) == t;
        assert j < k ==> RuleDone(s, results, j);
      }
    }
  }

  lemma Exhausted(s: Series, to: Option<int>, k: nat, r: nat, last: Option<int>, results: seq<Instance>)
    requires Walked(s, to, k, r, last, results) && !s.rule.Has(k) && r == |s.rdates|
    ensures Enumerates(s, to, results)
  {
    forall t | InSet(s, t) && Before(t, to)
      ensures Yielded(results, t)
    {
      if i :| 0 <= i < |s.rdates| && s.rdates[i].start == t {
        assert RDateDone(s, results, i);
      } else {
        var j: nat :| Record(s, j) && s.rule.at(j) == t;
        assert RuleDone(s, results, j);
      }
    }
  }

  // ----- The limit -----

  /** While the walk goes on, the elements it draws are those that must be drawn. */
  lemma NotYetStopped(s: Series, to: Option<int>, k: nat, r: nat, last: Option<int>, results: seq<Instance>)
    requires WellFormed(s) && Walked(s, to, k, r, last, results) && RuleIsNext(s, k, r)
    ensures !StoppedBefore(s, to, k)
  {
    OrderAfterRule(s, k, r);
    forall j | 0 <= j < k && Record(s, j) && s.rule.at(j) !in s.excluded
      ensures Before(s.rule.at(j), to)
    {
      assert RuleDone(s, results, j);
    }
    forall i | 0 <= i < r && s.rdates[i].start !in s.excluded
      ensures Before(s.rdates[i].start, to)
    {
      assert RDateDone(s, results, i);
    }
  }

  /** `budget.examined` after `k` elements were taken and the next, if there is one, was drawn. */
  ghost predicate WithinBudget(s: Series, k: nat, limit: nat) {
    s.counted ==> k + (if s.rule.Has(k) then 1 else 0) <= limit
  }

  lemma StoppedByRule(s: Series, to: Option<int>, k: nat, r: nat, last: Option<int>, limit: nat)
    requires TakenInOrder(s, k, r) && LastIs(s, k, r, last) && s.rule.Has(k)
    requires (last.None? || s.rule.at(k) > last.value)
    requires to.Some? && s.rule.at(k) >= to.value && s.rule.at(k) !in s.excluded && WithinBudget(s, k + 1, limit)
    ensures !Exceeds(s, to, limit)
  {
    RuleIsRecord(s, k, r, last);
    if s.counted && s.rule.Has(limit) {
      assert StoppedBefore(s, to, limit - 1);
    }
  }

  lemma StoppedByRDate(s: Series, to: Option<int>, k: nat, r: nat, limit: nat)
    requires RDateIsNext(s, k, r) && WithinBudget(s, k, limit)
    requires to.Some? && s.rdates[r].start >= to.value && s.rdates[r].start !in s.excluded
    ensures !Exceeds(s, to, limit)
  {
    if s.counted && s.rule.Has(limit) {
      assert StoppedBefore(s, to, limit - 1);
    }
  }

  /** What was taken, what was last, what was yielded: bundled, so that a proof can carry it without looking inside. */
  datatype Progress = Progress(k: nat, r: nat, last: Option<int>, results: seq<Instance>)

  /** The loop's invariant, whatever was taken when. */
  ghost predicate Walking(s: Series, to: Option<int>, limit: nat, k: nat, r: nat, last: Option<int>,
                          results: seq<Instance>) {
    exists p: Progress :: p == Progress(k, r, last, results) && WithinBudget(s, p.k, limit)
      && Walked(s, to, p.k, p.r, p.last, p.results)
  }

  lemma AtTheStart(s: Series, to: Option<int>, limit: nat)
    requires WithinBudget(s, 0, limit)
    ensures Walking(s, to, limit, 0, 0, None, [])
  {
    assert Walked(s, to, 0, 0, None, []);
    var p := Progress(0, 0, None, []);
    assert WithinBudget(s, p.k, limit) && Walked(s, to, p.k, p.r, p.last, p.results);
  }

  lemma AtTheEnd(s: Series, to: Option<int>, limit: nat, k: nat, r: nat, last: Option<int>, results: seq<Instance>)
    requires Walking(s, to, limit, k, r, last, results) && !s.rule.Has(k) && r >= |s.rdates|
    ensures Enumerates(s, to, results) && !Exceeds(s, to, limit)
  {
    Exhausted(s, to, k, r, last, results);
  }

  lemma OverBudget(s: Series, to: Option<int>, limit: nat, k: nat, r: nat, last: Option<int>, results: seq<Instance>)
    requires WellFormed(s) && Walking(s, to, limit, k, r, last, results) && RuleIsNext(s, k, r)
    requires !WithinBudget(s, k + 1, limit)
    ensures Exceeds(s, to, limit)
  {
    NotYetStopped(s, to, k, r, last, results);
  }

  /** `x` was taken, as element `k - 1` of the rule or RDATE `r - 1`, after an instance at `last`: what comes of it. */
  ghost predicate Took(s: Series, to: Option<int>, limit: nat, k: nat, r: nat, last: Option<int>,
                       results: seq<Instance>, x: Instance) {
    if last.Some? && x.start <= last.value then Walking(s, to, limit, k, r, last, results)
    else if x.start in s.excluded then Walking(s, to, limit, k, r, Some(x.start), results)
    else if Before(x.start, to) then Walking(s, to, limit, k, r, Some(x.start), results + [x])
    else Enumerates(s, to, results) && !Exceeds(s, to, limit)
  }

  /** The rule's element is dropped, excluded, yielded, or where the consumer stops. */
  lemma RuleStep(s: Series, to: Option<int>, limit: nat, k: nat, r: nat, last: Option<int>, results: seq<Instance>)
    requires WellFormed(s) && Walking(s, to, limit, k, r, last, results) && RuleIsNext(s, k, r)
    requires WithinBudget(s, k + 1, limit)
    ensures Took(s, to, limit, k + 1, r, last, results, s.FromRule(k))
  {
    if last.Some? && s.rule.at(k) <= last.value {
      RuleSkipped(s, to, k, r, last, results);
    } else if s.rule.at(k) in s.excluded {
      RuleExcluded(s, to, k, r, last, results);
    } else if Before(s.rule.at(k), to) {
      RuleYielded(s, to, k, r, last, results);
    } else {
      RuleStops(s, to, k, r, last, results);
      StoppedByRule(s, to, k, r, last, limit);
    }
  }

  lemma RDateStep(s: Series, to: Option<int>, limit: nat, k: nat, r: nat, last: Option<int>, results: seq<Instance>)
    requires WellFormed(s) && Walking(s, to, limit, k, r, last, results) && RDateIsNext(s, k, r)
    ensures Took(s, to, limit, k, r + 1, last, results, s.rdates[r])
  {
    if last.Some? && s.rdates[r].start <= last.value {
      RDateSkipped(s, to, k, r, last, results);
    } else if s.rdates[r].start in s.excluded {
      RDateExcluded(s, to, k, r, last, results);
    } else if Before(s.rdates[r].start, to) {
      RDateYielded(s, to, k, r, last, results);
    } else {
      RDateStops(s, to, k, r, last, results);
      StoppedByRDate(s, to, k, r, limit);
    }
  }

  // ----- The generator and its consumer -----

  /** `recurrenceSet` between two of its yields: its local variables, `taken` counting the elements of the rule
      used up. */
  datatype Paused = Paused(fromRule: Option<Instance>, examined: nat, taken: nat, rdateIndex: nat, last: Option<int>)

  /** The element after those used up was drawn, and counted. */
  ghost predicate Primed(s: Series, g: Paused) {
    && g.fromRule == (if s.rule.Has(g.taken) then Some(s.FromRule(g.taken)) else None)
    && (s.counted ==> g.examined == g.taken + (if s.rule.Has(g.taken) then 1 else 0))
  }

  /** The variables fit together and `results` is what was yielded so far. */
  ghost predicate Suspended(s: Series, to: Option<int>, limit: nat, g: Paused, results: seq<Instance>) {
    Primed(s, g) && Walking(s, to, limit, g.taken, g.rdateIndex, g.last, results)
  }

  function ElementsLeft(s: Series, limit: nat, g: Paused): int
    requires WellFormed(s)
  {
    (if s.counted then limit else s.rule.length.value) - g.taken
  }

  predicate Advances(g: Paused, g': Paused) {
    g.taken < g'.taken || (g.taken == g'.taken && g.rdateIndex < g'.rdateIndex)
  }

  /** The earlier of the rule's element and the RDATE, the rule's on a tie. */
  method TakeNext(s: Series, limit: nat, g: Paused, ghost to: Option<int>, ghost results: seq<Instance>)
    returns (outcome: Outcome<Instance>, g': Paused)
    requires WellFormed(s) && Suspended(s, to, limit, g, results) && (g.fromRule.Some? || g.rdateIndex < |s.rdates|)
    ensures outcome.LimitExceeded? ==> Exceeds(s, to, limit)
    ensures outcome.Success? ==> Took(s, to, limit, g'.taken, g'.rdateIndex, g.last, results, outcome.value)
    ensures outcome.Success? ==> Primed(s, g') && g'.last == g.last && Advances(g, g')
  {
    var takeRule :=
      g.rdateIndex >= |s.rdates| || (g.fromRule.Some? && g.fromRule.value.start <= s.rdates[g.rdateIndex].start);
    if !takeRule {
      RDateStep(s, to, limit, g.taken, g.rdateIndex, g.last, results);
      return Success(s.rdates[g.rdateIndex]), g.(rdateIndex := g.rdateIndex + 1);
    }
    var fromRule, examined, exceeded := Draw(s, g.taken + 1, g.examined, limit);
    if exceeded {
      OverBudget(s, to, limit, g.taken, g.rdateIndex, g.last, results);
      return LimitExceeded, g;
    }
    RuleStep(s, to, limit, g.taken, g.rdateIndex, g.last, results);
    return Success(g.fromRule.value), g.(fromRule := fromRule, examined := examined, taken := g.taken + 1);
  }

  /** The next instance the generator yields, if any. */
  method Resume(s: Series, limit: nat, g: Paused, ghost to: Option<int>, ghost results: seq<Instance>)
    returns (outcome: Outcome<Option<Instance>>, g': Paused)
    requires WellFormed(s) && Suspended(s, to, limit, g, results)
    ensures outcome.LimitExceeded? ==> Exceeds(s, to, limit)
    ensures outcome == Success(None) ==> Enumerates(s, to, results) && !Exceeds(s, to, limit)
    ensures outcome.Success? && outcome.value.Some? ==> Advances(g, g')
    ensures outcome.Success? && outcome.value.Some? ==>
              var x := outcome.value.value;
              if Before(x.start, to) then Suspended(s, to, limit, g', results + [x])
              else Enumerates(s, to, results) && !Exceeds(s, to, limit)
  {
    g' := g;
    while g'.fromRule.Some? || g'.rdateIndex < |s.rdates|
      invariant Suspended(s, to, limit, g', results)
      invariant g' == g || Advances(g, g')
      decreases ElementsLeft(s, limit, g'), |s.rdates| - g'.rdateIndex
    {
      var last := g'.last;
      var taken;
      taken, g' := TakeNext(s, limit, g', to, results);
      if taken.LimitExceeded? {
        return LimitExceeded, g;
      }
      if last.Some? && taken.value.start <= last.value {
        continue;
      }
      g' := g'.(last := Some(taken.value.start));
      if taken.value.start !in s.excluded {
        return Success(Some(taken.value)), g';
      }
    }
    AtTheEnd(s, to, limit, g'.taken, g'.rdateIndex, g'.last, results);
    return Success(None), g';
  }

  /** The loop that consumes the generator, `for (... of recurrenceSet(...)) { if (start >= to) break; ... }`.
      Fails exactly if more of the rule than `limit` elements would have to be drawn, and else gives exactly
      the instances of the set before `to`; it ends in one of the two even for an endless rule. */
  method Collect(s: Series, to: Option<int>, limit: nat) returns (outcome: Outcome<seq<Instance>>)
    requires WellFormed(s)
    ensures outcome.LimitExceeded? <==> Exceeds(s, to, limit)
    ensures outcome.Success? ==> Enumerates(s, to, outcome.value)
  {
    var fromRule, examined, exceeded := Draw(s, 0, 0, limit);
    if exceeded {
      return LimitExceeded;
    }
    AtTheStart(s, to, limit);
    var g := Paused(fromRule, examined, 0, 0, None);
    var results: seq<Instance> := [];
    while true
      invariant Suspended(s, to, limit, g, results)
      decreases ElementsLeft(s, limit, g), |s.rdates| - g.rdateIndex
    {
      var next, g' := Resume(s, limit, g, to, results);
      if next.LimitExceeded? {
        return LimitExceeded;
      }
      if next.value.None? || (to.Some? && next.value.value.start >= to.value) {
        return Success(results);
      }
      results := results + [next.value.value];
      g := g';
    }
  }

  /** One call of the iterator: the element is counted before it is used. */
  method Draw(s: Series, k: nat, examined: nat, limit: nat)
      returns (fromRule: Option<Instance>, examined': nat, exceeded: bool)
    ensures examined' == examined + (if s.counted && s.rule.Has(k) then 1 else 0)
    ensures exceeded <==> s.counted && s.rule.Has(k) && examined' > limit
    ensures !exceeded ==> fromRule == if s.rule.Has(k) then Some(s.FromRule(k)) else None
  {
    if !s.rule.Has(k) {
      return None, examined, false;
    }
    examined' := if s.counted then examined + 1 else examined;
    if s.counted && examined' > limit {
      return None, examined', true;
    }
    return Some(s.FromRule(k)), examined', false;
  }

  // ----- The set, for rules in order and others -----

  /** The rule yields `t`, whenever. */
  ghost predicate OnTheRule(s: Series, t: int) {
    exists i :: s.rule.Has(i) && s.rule.at(i) == t
  }

  /** Element `i` comes after a later instant: an earlier one mapped past it. */
  ghost predicate OutOfOrder(s: Series, i: nat) {
    s.rule.Has(i) && exists j :: 0 <= j < i && s.rule.at(j) > s.rule.at(i)
  }

  lemma InOrderIsKept(s: Series, i: nat)
    requires s.rule.Has(i) && !OutOfOrder(s, i)
    ensures FromTheRule(s, s.rule.at(i))
  {
    assert forall j :: 0 <= j < i ==> s.rule.at(j) <= s.rule.at(i);
    FirstToReach(s, i + 1, s.rule.at(i));
  }

  /** The set is the union of the rule and the RDATEs without the EXDATEs exactly if no instant gets lost for being
      out of order: each that comes late was yielded in order too, is an RDATE, or is excluded anyway. */
  lemma SetIsUnionExactlyIfNothingIsLost(s: Series)
    ensures (forall t :: InSet(s, t) <==> t !in s.excluded && (OnTheRule(s, t) || FromAnRDate(s, t)))
            <==> (forall i :: OutOfOrder(s, i) ==>
                    var t := s.rule.at(i); t in s.excluded || FromAnRDate(s, t) || FromTheRule(s, t))
  {
    if forall i :: OutOfOrder(s, i) ==>
         var t := s.rule.at(i); t in s.excluded || FromAnRDate(s, t) || FromTheRule(s, t) {
      forall t | t !in s.excluded && OnTheRule(s, t)
        ensures FromTheRule(s, t) || FromAnRDate(s, t)
      {
        var i :| s.rule.Has(i) && s.rule.at(i) == t;
        if !OutOfOrder(s, i) {
          InOrderIsKept(s, i);
        }
      }
    } else {
      var i :| OutOfOrder(s, i) && var t := s.rule.at(i); !(t in s.excluded || FromAnRDate(s, t) || FromTheRule(s, t));
      assert OnTheRule(s, s.rule.at(i)) && !InSet(s, s.rule.at(i));
    }
  }

  // ----- Starting the rule later -----

  /** `jumped` is `plain` with the first `m` elements of the rule left out, all of them before `skipTo`. */
  ghost predicate LeavesOut(plain: Series, jumped: Series, m: nat, skipTo: int) {
    && jumped == plain.(rule := jumped.rule)
    && (forall i: nat :: jumped.rule.Has(i) <==> plain.rule.Has(i + m))
    && (forall i: nat :: jumped.rule.Has(i) ==> jumped.rule.at(i) == plain.rule.at(i + m))
    && (forall j :: 0 <= j < m && plain.rule.Has(j) ==> plain.rule.at(j) < skipTo)
  }

  /** An RDATE on an instant of the rule is no different from it: it brings no end of its own. */
  ghost predicate RDatesAgree(s: Series) {
    forall k :: 0 <= k < |s.rdates| && OnTheRule(s, s.rdates[k].start) ==>
                  s.rdates[k] == Instance(s.rdates[k].start, s.rdates[k].start + s.length, s.hasExplicitEnd)
  }

  /** What starts before `skipTo` with the rule's length is of no interest. */
  ghost predicate Ignores(keep: Instance -> bool, s: Series, skipTo: int) {
    forall x: Instance :: x.start < skipTo && x.end == x.start + s.length && x.hasExplicitEnd == s.hasExplicitEnd ==>
      !keep(x)
  }

  lemma SameFromSkipTo(plain: Series, jumped: Series, m: nat, skipTo: int, t: int)
    requires LeavesOut(plain, jumped, m, skipTo) && t >= skipTo
    ensures FromTheRule(plain, t) <==> FromTheRule(jumped, t)
  {
    if i: nat :| Record(plain, i) && plain.rule.at(i) == t {
      assert i >= m;
      assert jumped.rule.Has(i - m) && jumped.rule.at(i - m) == t;
      forall j | 0 <= j < i - m
        ensures jumped.rule.at(j) < t
      {
        assert plain.rule.Has(j + m) && jumped.rule.Has(j);
      }
      assert Record(jumped, i - m);
    }
    if i: nat :| Record(jumped, i) && jumped.rule.at(i) == t {
      forall j | 0 <= j < i + m
        ensures plain.rule.at(j) < t
      {
        assert j >= m ==> jumped.rule.at(j - m) == plain.rule.at(j - m + m);
      }
      assert Record(plain, i + m) && plain.rule.at(i + m) == t;
    }
  }

  lemma JumpedOnTheRule(plain: Series, jumped: Series, m: nat, skipTo: int, t: int)
    requires LeavesOut(plain, jumped, m, skipTo) && (FromTheRule(jumped, t) || FromTheRule(plain, t))
    ensures OnTheRule(plain, t)
  {
    if i: nat :| Record(jumped, i) && jumped.rule.at(i) == t {
      assert plain.rule.Has(i + m) && plain.rule.at(i + m) == t;
    } else {
      var i: nat :| Record(plain, i) && plain.rule.at(i) == t;
    }
  }

  /** No RDATE of interest is displaced by an instant of the rule in one series only. */
  ghost predicate NoRDateShows(plain: Series, jumped: Series, keep: Instance -> bool) {
    forall y :: y in plain.rdates && y.start !in plain.excluded && keep(y) ==>
      (FromTheRule(plain, y.start) <==> FromTheRule(jumped, y.start))
  }

  /** Of the instances of interest the jump loses none and adds none, exactly if no RDATE shows the difference. */
  lemma JumpKeepsInstances(plain: Series, jumped: Series, m: nat, skipTo: int, keep: Instance -> bool)
    requires LeavesOut(plain, jumped, m, skipTo) && Ignores(keep, plain, skipTo)
    ensures (forall x :: keep(x) ==> (IsInstance(plain, x) <==> IsInstance(jumped, x)))
            <==> NoRDateShows(plain, jumped, keep)
  {
    forall x: Instance | x.start >= skipTo
      ensures FromTheRule(plain, x.start) <==> FromTheRule(jumped, x.start)
    {
      SameFromSkipTo(plain, jumped, m, skipTo, x.start);
    }
    if NoRDateShows(plain, jumped, keep) {
      forall x | keep(x)
        ensures IsInstance(plain, x) <==> IsInstance(jumped, x)
      {
        InRDates(plain, x);
        InRDates(jumped, x);
      }
    } else {
      var y :| y in plain.rdates && y.start !in plain.excluded && keep(y)
               && (FromTheRule(plain, y.start) <==> !FromTheRule(jumped, y.start));
      InRDates(plain, y);
      InRDates(jumped, y);
      assert y.start < skipTo;
      assert IsInstance(plain, y) <==> !IsInstance(jumped, y);
    }
  }

  lemma InRDates(s: Series, x: Instance)
    ensures x in s.rdates ==> FromAnRDate(s, x.start)
  {
    if x in s.rdates {
      var k :| 0 <= k < |s.rdates| && s.rdates[k] == x;
    }
  }

  /** An RDATE that an instant of the rule displaces in `plain`, but not in `jumped`. */
  ghost predicate ComesBack(plain: Series, jumped: Series, y: Instance) {
    && y in plain.rdates && y.start !in plain.excluded
    && FromTheRule(plain, y.start) && !FromTheRule(jumped, y.start)
  }

  /** What the jump adds are the RDATEs that come back. */
  lemma JumpAddsWhatComesBack(plain: Series, jumped: Series, m: nat, skipTo: int, keep: Instance -> bool, x: Instance)
    requires LeavesOut(plain, jumped, m, skipTo) && Ignores(keep, plain, skipTo) && keep(x)
    ensures IsInstance(jumped, x) && !IsInstance(plain, x) <==> ComesBack(plain, jumped, x)
  {
    InRDates(plain, x);
    InRDates(jumped, x);
    if x.start >= skipTo {
      SameFromSkipTo(plain, jumped, m, skipTo, x.start);
    }
  }

  /** What it loses are RDATEs on instants that the rule yields out of order, and that differ from the rule's own. */
  lemma JumpLosesWhatIsLate(plain: Series, jumped: Series, m: nat, skipTo: int, keep: Instance -> bool, x: Instance)
    requires LeavesOut(plain, jumped, m, skipTo) && Ignores(keep, plain, skipTo) && keep(x)
    requires IsInstance(plain, x) && !IsInstance(jumped, x)
    ensures x in plain.rdates && OnTheRule(plain, x.start) && !FromTheRule(plain, x.start)
    ensures x != Instance(x.start, x.start + plain.length, plain.hasExplicitEnd)
  {
    InRDates(plain, x);
    InRDates(jumped, x);
    if x.start >= skipTo {
      SameFromSkipTo(plain, jumped, m, skipTo, x.start);
    } else if FromTheRule(jumped, x.start) {
      JumpedOnTheRule(plain, jumped, m, skipTo, x.start);
    }
  }

  /** RDATEs that are no different from the rule never show it. */
  lemma AgreeingRDatesDoNotShow(plain: Series, jumped: Series, m: nat, skipTo: int, keep: Instance -> bool)
    requires LeavesOut(plain, jumped, m, skipTo) && RDatesAgree(plain) && Ignores(keep, plain, skipTo)
    ensures NoRDateShows(plain, jumped, keep)
  {
    forall y | y in plain.rdates && y.start !in plain.excluded && keep(y)
      ensures FromTheRule(plain, y.start) <==> FromTheRule(jumped, y.start)
    {
      if y.start >= skipTo {
        SameFromSkipTo(plain, jumped, m, skipTo, y.start);
      } else if FromTheRule(plain, y.start) || FromTheRule(jumped, y.start) {
        JumpedOnTheRule(plain, jumped, m, skipTo, y.start);
      }
    }
  }

  lemma JumpStopsToo(plain: Series, jumped: Series, m: nat, skipTo: int, to: Option<int>, n: nat)
    requires LeavesOut(plain, jumped, m, skipTo) && (to.Some? ==> skipTo <= to.value) && plain.rule.Has(n)
    ensures StoppedBefore(plain, to, n) ==> StoppedBefore(jumped, to, n)
  {
    if StoppedBefore(plain, to, n) {
      if j :| 0 <= j < n && Record(plain, j) && plain.rule.at(j) >= to.value && plain.rule.at(j) !in plain.excluded {
        assert j >= m && jumped.rule.Has(j - m) && jumped.rule.at(j - m) == plain.rule.at(j - m + m);
        forall i | 0 <= i < j - m
          ensures jumped.rule.at(i) < jumped.rule.at(j - m)
        {
          assert jumped.rule.Has(i) && jumped.rule.at(i) == plain.rule.at(i + m);
        }
        assert Record(jumped, j - m);
      } else {
        var j, k :| 0 <= j <= n && 0 <= k < |plain.rdates| && plain.rule.at(j) > plain.rdates[k].start
                    && plain.rdates[k].start >= to.value && plain.rdates[k].start !in plain.excluded;
        assert plain.rule.Has(j) && j >= m;
        assert jumped.rule.Has(j - m) && jumped.rule.at(j - m) == plain.rule.at(j - m + m);
      }
    }
  }

  /** The jumped walk draws no more: where it fails, so does the plain one. */
  lemma JumpExceedsNoSooner(plain: Series, jumped: Series, m: nat, skipTo: int, to: Option<int>, limit: nat)
    requires LeavesOut(plain, jumped, m, skipTo) && (to.Some? ==> skipTo <= to.value)
    ensures Exceeds(jumped, to, limit) ==> Exceeds(plain, to, limit)
  {
    if Exceeds(jumped, to, limit) {
      assert plain.rule.Has(limit + m) && plain.rule.Has(limit);
    }
    if limit > 0 && plain.rule.Has(limit - 1) {
      JumpStopsToo(plain, jumped, m, skipTo, to, limit - 1);
    }
  }
}
