/** Coalescing busy time (packages/core/src/caldav/free-busy-query-report.ts). */
module FreeBusy {
  import opened Sequences

  datatype FbType = Busy | BusyTentative

  datatype BusyInterval = BusyInterval(start: int, end: int, fbtype: FbType)

  predicate ByStart(a: BusyInterval, b: BusyInterval) {
    a.start <= b.start
  }

  predicate IsBusy(x: BusyInterval) {
    x.fbtype == Busy
  }

  predicate IsTentative(x: BusyInterval) {
    x.fbtype == BusyTentative
  }

  function Has(t: FbType): BusyInterval -> bool {
    match t
    case Busy => IsBusy
    case BusyTentative => IsTentative
  }

  function OfType(t: FbType, intervals: seq<BusyInterval>): seq<BusyInterval> {
    Filter(Has(t), intervals)
  }

  /** The types in the order in which they first occur: the key order of the map of lists. */
  function TypeOrder(intervals: seq<BusyInterval>): seq<FbType> {
    if intervals == [] then []
    else
      var order := TypeOrder(intervals[..|intervals| - 1]);
      var t := intervals[|intervals| - 1].fbtype;
      if t in order then order else order + [t]
  }

  /** One more interval: it extends the last block, or starts one. */
  function Absorb(blocks: seq<BusyInterval>, x: BusyInterval): seq<BusyInterval> {
    var n := |blocks|;
    if n > 0 && x.start <= blocks[n - 1].end then
      blocks[n - 1 := blocks[n - 1].(end := if x.end > blocks[n - 1].end then x.end else blocks[n - 1].end)]
    else blocks + [x]
  }

  function Merge(intervals: seq<BusyInterval>): seq<BusyInterval> {
    if intervals == [] then []
    else Absorb(Merge(intervals[..|intervals| - 1]), intervals[|intervals| - 1])
  }

  /** The blocks of one type. */
  function BlocksOf(t: FbType, intervals: seq<BusyInterval>): seq<BusyInterval> {
    Merge(StableSort(ByStart, OfType(t, intervals)))
  }

  function Blocks(intervals: seq<BusyInterval>, order: seq<FbType>): seq<BusyInterval> {
    if order == [] then []
    else Blocks(intervals, order[..|order| - 1]) + BlocksOf(order[|order| - 1], intervals)
  }

  function Coalesced(intervals: seq<BusyInterval>): seq<BusyInterval> {
    StableSort(ByStart, Blocks(intervals, TypeOrder(intervals)))
  }

  function Listed(byType: map<FbType, seq<BusyInterval>>, t: FbType): seq<BusyInterval> {
    if t in byType then byType[t] else []
  }

  ghost predicate Grouped(past: seq<BusyInterval>, byType: map<FbType, seq<BusyInterval>>, order: seq<FbType>) {
    && order == TypeOrder(past)
    && forall t :: (t in byType <==> t in order) && Listed(byType, t) == OfType(t, past)
  }

  lemma GroupStep(past: seq<BusyInterval>, x: BusyInterval, byType: map<FbType, seq<BusyInterval>>, order: seq<FbType>)
    requires Grouped(past, byType, order)
    ensures Grouped(past + [x], byType[x.fbtype := Listed(byType, x.fbtype) + [x]],
                    if x.fbtype in byType then order else order + [x.fbtype])
  {
    assert (past + [x])[..|past|] == past;
    forall t
      ensures OfType(t, past + [x]) == if t == x.fbtype then OfType(t, past) + [x] else OfType(t, past)
    {
      FilterConcat(Has(t), past, [x]);
    }
  }

  /** The loop's invariant: so much is grouped. */
  ghost predicate Collected(past: seq<BusyInterval>, byType: map<FbType, seq<BusyInterval>>, order: seq<FbType>) {
    exists grouped :: grouped == past && Grouped(grouped, byType, order)
  }

  lemma CollectNone()
    ensures Collected([], map[], [])
  {
    assert Grouped([], map[], []);
  }

  lemma CollectNext(past: seq<BusyInterval>, x: BusyInterval, byType: map<FbType, seq<BusyInterval>>,
                    order: seq<FbType>)
    requires Collected(past, byType, order)
    ensures Collected(past + [x], byType[x.fbtype := Listed(byType, x.fbtype) + [x]],
                      if x.fbtype in byType then order else order + [x.fbtype])
  {
    GroupStep(past, x, byType, order);
  }

  /** One turn of the loop; `order` stands for the map's order of insertion. */
  method Push(byType: map<FbType, seq<BusyInterval>>, order: seq<FbType>, interval: BusyInterval,
              ghost past: seq<BusyInterval>)
    returns (byType': map<FbType, seq<BusyInterval>>, order': seq<FbType>)
    requires Collected(past, byType, order)
    ensures Collected(past + [interval], byType', order')
  {
    CollectNext(past, interval, byType, order);
    var list := Listed(byType, interval.fbtype);
    order' := if interval.fbtype in byType then order else order + [interval.fbtype];
    byType' := byType[interval.fbtype := list + [interval]];
  }

  method GroupByType(intervals: seq<BusyInterval>) returns (byType: map<FbType, seq<BusyInterval>>, order: seq<FbType>)
    ensures Grouped(intervals, byType, order)
  {
    byType, order := map[], [];
    CollectNone();
    for i := 0 to |intervals|
      invariant Collected(intervals[..i], byType, order)
    {
      byType, order := Push(byType, order, intervals[i], intervals[..i]);
      assert intervals[..i + 1] == intervals[..i] + [intervals[i]];
    }
    assert intervals[..|intervals|] == intervals;
  }

  method Coalesce(intervals: seq<BusyInterval>) returns (result: seq<BusyInterval>)
    ensures result == Coalesced(intervals)
  {
    var byType, order := GroupByType(intervals);
    result := [];
    for k := 0 to |order|
      invariant result == Blocks(intervals, order[..k])
    {
      assert order[..k + 1][..k] == order[..k] && order[k] in order;
      assert Listed(byType, order[k]) == OfType(order[k], intervals);
      var sameType := StableSort(ByStart, byType[order[k]]);
      result := AppendMerged(result, sameType);
    }
    assert order[..|order|] == order;
    result := StableSort(ByStart, result);
  }

  /** The inner loop: the last block of `result` is extended in place once this type has one. */
  method AppendMerged(before: seq<BusyInterval>, sameType: seq<BusyInterval>) returns (result: seq<BusyInterval>)
    ensures result == before + Merge(sameType)
  {
    result := before;
    var hasCurrent := false;
    for j := 0 to |sameType|
      invariant hasCurrent <==> j > 0
      invariant result == before + Merge(sameType[..j])
      invariant j > 0 ==> Merge(sameType[..j]) != []
    {
      var interval, last := sameType[j], |result| - 1;
      assert sameType[..j + 1][..j] == sameType[..j];
      if hasCurrent && interval.start <= result[last].end {
        var end := if interval.end > result[last].end then interval.end else result[last].end;
        result := result[last := result[last].(end := end)];
      } else {
        hasCurrent := true;
        result := result + [interval];
      }
    }
    assert sameType[..|sameType|] == sameType;
  }

  // ----- What the blocks cover -----

  predicate Within(x: BusyInterval, p: real) {
    x.start as real <= p <= x.end as real
  }

  ghost predicate Covers(xs: seq<BusyInterval>, p: real) {
    exists i :: 0 <= i < |xs| && Within(xs[i], p)
  }

  ghost predicate Forward(xs: seq<BusyInterval>) {
    forall i :: 0 <= i < |xs| ==> xs[i].start <= xs[i].end
  }

  /** Any block ends before those after it start. */
  ghost predicate Gapped(blocks: seq<BusyInterval>) {
    forall i, j :: 0 <= i < j < |blocks| ==> blocks[i].end < blocks[j].start
  }

  /** Ascending, with a gap between any two blocks: neither overlapping nor touching. */
  ghost predicate Separated(blocks: seq<BusyInterval>) {
    Forward(blocks) && Gapped(blocks)
  }

  ghost predicate SameCoverage(a: seq<BusyInterval>, b: seq<BusyInterval>) {
    forall p: real :: Covers(a, p) <==> Covers(b, p)
  }

  lemma ByStartIsOrder()
    ensures TotalPreorder(ByStart)
  {
  }

  lemma AbsorbCovers(blocks: seq<BusyInterval>, x: BusyInterval, p: real)
    requires blocks != [] ==> blocks[|blocks| - 1].start <= x.start
    ensures Covers(Absorb(blocks, x), p) <==> Covers(blocks, p) || Within(x, p)
  {
    var n, next := |blocks|, Absorb(blocks, x);
    if i :| 0 <= i < n && Within(blocks[i], p) {
      assert Within(next[i], p);
    }
    if Within(x, p) {
      assert Within(next[|next| - 1], p);
    }
    if i :| 0 <= i < |next| && Within(next[i], p) {
      if i < n && next[i] == blocks[i] {
        assert Within(blocks[i], p);
      } else if i < n {
        assert Within(blocks[i], p) || Within(x, p);
      }
    }
  }

  ghost predicate AllStartBy(blocks: seq<BusyInterval>, t: int) {
    forall i :: 0 <= i < |blocks| ==> blocks[i].start <= t
  }

  lemma LastStartsLatest(blocks: seq<BusyInterval>, t: int)
    requires Ordered(ByStart, blocks) && (blocks != [] ==> blocks[|blocks| - 1].start <= t)
    ensures AllStartBy(blocks, t)
  {
    assert forall i :: 0 <= i < |blocks| - 1 ==> ByStart(blocks[i], blocks[|blocks| - 1]);
  }

  lemma AbsorbKeepsGaps(blocks: seq<BusyInterval>, x: BusyInterval)
    requires Gapped(blocks) && AllStartBy(blocks, x.start)
    ensures Gapped(Absorb(blocks, x))
    ensures Forward(blocks) && x.start <= x.end ==> Forward(Absorb(blocks, x))
  {
  }

  lemma AbsorbKeepsOrder(blocks: seq<BusyInterval>, x: BusyInterval)
    requires Ordered(ByStart, blocks) && AllStartBy(blocks, x.start)
    ensures Ordered(ByStart, Absorb(blocks, x))
  {
    var next := Absorb(blocks, x);
    forall i, j | 0 <= i < j < |next|
      ensures ByStart(next[i], next[j])
    {
      assert i < j < |blocks| ==> ByStart(blocks[i], blocks[j]);
    }
  }

  /** Merging sorted intervals keeps the points they cover and leaves gaps, even if some end before they start. */
  lemma {:induction false} MergeShape(xs: seq<BusyInterval>)
    requires Ordered(ByStart, xs)
    ensures Gapped(Merge(xs)) && Ordered(ByStart, Merge(xs)) && SameCoverage(xs, Merge(xs))
    ensures Forward(xs) ==> Separated(Merge(xs))
    ensures xs != [] ==> Merge(xs) != [] && Merge(xs)[|Merge(xs)| - 1].start <= xs[|xs| - 1].start
  {
    if xs == [] {
    } else {
      var n := |xs| - 1;
      var front, x := xs[..n], xs[n];
      MergeShape(front);
      assert front != [] ==> ByStart(xs[n - 1], x);
      LastStartsLatest(Merge(front), x.start);
      AbsorbKeepsGaps(Merge(front), x);
      AbsorbKeepsOrder(Merge(front), x);
      forall p: real
        ensures Covers(xs, p) <==> Covers(Merge(xs), p)
      {
        AbsorbCovers(Merge(front), x, p);
        CoversLast(xs, p);
      }
    }
  }

  lemma {:induction false} MergeKeepsType(xs: seq<BusyInterval>, t: FbType)
    requires forall i :: 0 <= i < |xs| ==> xs[i].fbtype == t
    ensures forall i :: 0 <= i < |Merge(xs)| ==> Merge(xs)[i].fbtype == t
  {
    if xs == [] {
    } else {
      MergeKeepsType(xs[..|xs| - 1], t);
    }
  }

  lemma CoversLast(xs: seq<BusyInterval>, p: real)
    requires xs != []
    ensures Covers(xs, p) <==> Covers(xs[..|xs| - 1], p) || Within(xs[|xs| - 1], p)
  {
    var n := |xs| - 1;
    if i :| 0 <= i < n && Within(xs[..n][i], p) {
      assert Within(xs[i], p);
    }
    if i :| 0 <= i < |xs| && Within(xs[i], p) {
      if i < n {
        assert Within(xs[..n][i], p);
      }
    }
  }

  /** Between two blocks there is a point that no block covers. */
  lemma Gap(blocks: seq<BusyInterval>, i: nat) returns (p: real)
    requires Separated(blocks) && i + 1 < |blocks|
    ensures blocks[i].end as real < p < blocks[i + 1].start as real && !Covers(blocks, p)
  {
    assert blocks[i].end < blocks[i + 1].start;
    p := (blocks[i].end as real + blocks[i + 1].start as real) / 2.0;
    forall k | 0 <= k < |blocks|
      ensures !Within(blocks[k], p)
    {
      assert k < i ==> blocks[k].end < blocks[i].start;
      assert k > i + 1 ==> blocks[i + 1].end < blocks[k].start;
    }
  }

  /** No other intervals that cover the same points are fewer than the blocks. */
  lemma FewestBlocks(blocks: seq<BusyInterval>, others: seq<BusyInterval>)
    requires Separated(blocks) && SameCoverage(blocks, others)
    ensures |blocks| <= |others|
  {
    var coverer: seq<nat> := [];
    for k := 0 to |blocks|
      invariant |coverer| == k
      invariant forall i :: 0 <= i < k ==> coverer[i] < |others| && Within(others[coverer[i]], blocks[i].start as real)
    {
      assert Within(blocks[k], blocks[k].start as real);
      assert Covers(others, blocks[k].start as real);
      var c :| 0 <= c < |others| && Within(others[c], blocks[k].start as real);
      coverer := coverer + [c];
    }
    forall i, j | 0 <= i < j < |coverer|
      ensures coverer[i] != coverer[j]
    {
      var p := Gap(blocks, i);
      assert !Covers(others, p);
      assert blocks[i + 1].start <= blocks[j].start by {
        assert i + 1 < j ==> blocks[i + 1].end < blocks[j].start;
      }
      assert Within(others[coverer[i]], blocks[i].start as real) && !Within(others[coverer[i]], p);
      assert blocks[i].start <= blocks[i].end;
    }
    Pigeonhole(coverer, |others|);
  }

  lemma CoversTail(blocks: seq<BusyInterval>, p: real)
    requires Separated(blocks) && blocks != []
    ensures Covers(blocks[1..], p) <==> Covers(blocks, p) && p > blocks[0].end as real
  {
    if i :| 0 <= i < |blocks[1..]| && Within(blocks[1..][i], p) {
      assert Within(blocks[i + 1], p) && blocks[0].end < blocks[i + 1].start;
    }
    if i :| 0 <= i < |blocks| && Within(blocks[i], p) {
      if i > 0 {
        assert Within(blocks[1..][i - 1], p);
      }
    }
  }

  /** Separated blocks of the same type are determined by what they cover. */
  lemma {:induction false} SeparatedUnique(a: seq<BusyInterval>, b: seq<BusyInterval>, t: FbType)
    requires Separated(a) && Separated(b) && SameCoverage(a, b)
    requires forall x :: x in a || x in b ==> x.fbtype == t
    ensures a == b
  {
    FewestBlocks(a, b);
    FewestBlocks(b, a);
    if a == [] {
    } else {
      FirstNotAfter(a, b);
      FirstNotAfter(b, a);
      assert a[0] in a && b[0] in b;
      forall p: real
        ensures Covers(a[1..], p) <==> Covers(b[1..], p)
      {
        CoversTail(a, p);
        CoversTail(b, p);
      }
      SeparatedUnique(a[1..], b[1..], t);
      assert a == [a[0]] + a[1..] && b == [b[0]] + b[1..];
    }
  }

  /** The first block of `a` starts and ends no later than that of `b`. */
  lemma FirstNotAfter(a: seq<BusyInterval>, b: seq<BusyInterval>)
    requires Separated(a) && Separated(b) && SameCoverage(a, b) && a != [] && b != []
    ensures a[0].start <= b[0].start
    ensures a[0].start == b[0].start ==> a[0].end <= b[0].end
  {
    assert Within(b[0], b[0].start as real) && Covers(b, b[0].start as real);
    var i :| 0 <= i < |a| && Within(a[i], b[0].start as real);
    assert i > 0 ==> a[0].end < a[i].start;
    if a[0].start == b[0].start {
      var p := a[0].end as real;
      assert Within(a[0], p) && Covers(a, p);
      var k :| 0 <= k < |b| && Within(b[k], p);
      forall j | 0 < j < |b|
        ensures !Within(b[j], p)
      {
        var gap := Gap(b, 0);
        assert !Covers(a, gap) && !Within(a[0], gap);
        assert j > 1 ==> b[1].end < b[j].start;
      }
    }
  }

  // ----- The whole result -----

  lemma TypeOrderMembers(xs: seq<BusyInterval>)
    ensures forall t :: t in TypeOrder(xs) <==> exists x :: x in xs && x.fbtype == t
    ensures Distinct(TypeOrder(xs))
  {
    if xs != [] {
      var n := |xs| - 1;
      TypeOrderMembers(xs[..n]);
      assert xs == xs[..n] + [xs[n]];
      assert xs[n] in xs;
    }
  }

  /** For each type: in order, disjoint and non-touching, exactly the busy points. */
  lemma BlocksOfType(t: FbType, xs: seq<BusyInterval>)
    ensures Gapped(BlocksOf(t, xs)) && Ordered(ByStart, BlocksOf(t, xs))
    ensures SameCoverage(OfType(t, xs), BlocksOf(t, xs))
    ensures Forward(xs) ==> Separated(BlocksOf(t, xs))
    ensures forall x :: x in BlocksOf(t, xs) ==> x.fbtype == t
    ensures OfType(t, xs) == [] ==> BlocksOf(t, xs) == []
  {
    var mine := OfType(t, xs);
    var sorted := StableSort(ByStart, mine);
    ByStartIsOrder();
    FilterMembers(Has(t), xs);
    SortMembers(ByStart, mine);
    SortOrders(ByStart, mine);
    assert forall i :: 0 <= i < |sorted| ==> sorted[i] in mine && sorted[i] in xs;
    MergeShape(sorted);
    MergeKeepsType(sorted, t);
    CoverageByMembers(mine, sorted);
  }

  lemma CoverageByMembers(a: seq<BusyInterval>, b: seq<BusyInterval>)
    requires forall x :: x in a <==> x in b
    ensures SameCoverage(a, b)
  {
    forall p: real
      ensures Covers(a, p) <==> Covers(b, p)
    {
      if i :| 0 <= i < |a| && Within(a[i], p) {
        assert a[i] in b;
      }
      if i :| 0 <= i < |b| && Within(b[i], p) {
        assert b[i] in a;
      }
    }
  }

  lemma {:induction false} FilterBlocks(t: FbType, xs: seq<BusyInterval>, order: seq<FbType>)
    requires Distinct(order)
    ensures OfType(t, Blocks(xs, order)) == if t in order then BlocksOf(t, xs) else []
  {
    if order == [] {
    } else {
      var n := |order| - 1;
      FilterBlocks(t, xs, order[..n]);
      assert order == order[..n] + [order[n]] && order[n] !in order[..n];
      OneTypeMore(t, xs, Blocks(xs, order[..n]), order[..n], order[n]);
    }
  }

  lemma OneTypeMore(t: FbType, xs: seq<BusyInterval>, blocks: seq<BusyInterval>, front: seq<FbType>, last: FbType)
    requires last !in front
    requires OfType(t, blocks) == if t in front then BlocksOf(t, xs) else []
    ensures OfType(t, blocks + BlocksOf(last, xs)) == if t in front || t == last then BlocksOf(t, xs) else []
  {
    FilterConcat(Has(t), blocks, BlocksOf(last, xs));
    FilterOwnBlocks(t, last, xs);
    assert forall own: seq<BusyInterval> :: own + [] == own && [] + own == own;
  }

  lemma FilterOwnBlocks(t: FbType, last: FbType, xs: seq<BusyInterval>)
    ensures OfType(t, BlocksOf(last, xs)) == if t == last then BlocksOf(last, xs) else []
  {
    BlocksOfType(last, xs);
    FilterAll(Has(t), BlocksOf(last, xs));
  }

  /** The result is sorted by start, and holds per type exactly the blocks of that type. */
  lemma CoalescedIs(xs: seq<BusyInterval>)
    ensures Ordered(ByStart, Coalesced(xs))
    ensures forall t :: OfType(t, Coalesced(xs)) == BlocksOf(t, xs)
  {
    var order := TypeOrder(xs);
    ByStartIsOrder();
    TypeOrderMembers(xs);
    SortOrders(ByStart, Blocks(xs, order));
    forall t
      ensures OfType(t, Coalesced(xs)) == BlocksOf(t, xs)
    {
      FilterBlocks(t, xs, order);
      FilterMembers(Has(t), xs);
      BlocksOfType(t, xs);
      if t !in order {
        FilterAll(Has(t), xs);
      }
      FilterSort(ByStart, Has(t), Blocks(xs, order));
      SortOfOrdered(ByStart, BlocksOf(t, xs));
    }
  }

  lemma SeparatedOrdered(blocks: seq<BusyInterval>)
    requires Separated(blocks)
    ensures Ordered(ByStart, blocks)
  {
  }

  /** Coalescing is exact and disjoint for every type, and sorted overall; and minimal, if no interval ends before it
      starts. One that does covers nothing. */
  lemma CoalesceCorrect(xs: seq<BusyInterval>, t: FbType, others: seq<BusyInterval>)
    ensures Ordered(ByStart, Coalesced(xs))
    ensures var blocks := OfType(t, Coalesced(xs));
            && Gapped(blocks) && SameCoverage(OfType(t, xs), blocks)
            && (Forward(xs) ==> Separated(blocks) && (SameCoverage(OfType(t, xs), others) ==> |blocks| <= |others|))
  {
    CoalescedIs(xs);
    BlocksOfType(t, xs);
    if Forward(xs) && SameCoverage(OfType(t, xs), others) {
      FewestBlocks(BlocksOf(t, xs), others);
    }
  }

  /** Intervals that cover the same points per type have the same blocks per type. */
  lemma SameBlocks(xs: seq<BusyInterval>, ys: seq<BusyInterval>, t: FbType)
    requires Forward(xs) && Forward(ys) && SameCoverage(OfType(t, xs), OfType(t, ys))
    ensures BlocksOf(t, xs) == BlocksOf(t, ys)
  {
    BlocksOfType(t, xs);
    BlocksOfType(t, ys);
    SeparatedUnique(BlocksOf(t, xs), BlocksOf(t, ys), t);
  }

  // ----- Order of the input, and coalescing twice -----

  /** An interval of type `t` starts at `p`, and no earlier one of its type reaches that far. */
  ghost predicate Opens(t: FbType, xs: seq<BusyInterval>, p: int) {
    && (exists x :: x in xs && x.fbtype == t && x.start == p)
    && forall y :: y in xs && y.fbtype == t && y.start < p ==> y.end < p
  }

  /** Both types open at the same instant. */
  ghost predicate SharesStart(xs: seq<BusyInterval>) {
    exists p :: Opens(Busy, xs, p) && Opens(BusyTentative, xs, p)
  }

  /** No other type starts before all intervals of the one that the input begins with. */
  ghost predicate BeginsEarliest(xs: seq<BusyInterval>)
    requires xs != []
  {
    exists x :: x in xs && x.fbtype == xs[0].fbtype && forall y :: y in xs ==> x.start <= y.start
  }

  ghost predicate StartsAt(xs: seq<BusyInterval>, p: int) {
    exists i :: 0 <= i < |xs| && xs[i].start == p
  }

  /** An interval that started earlier reaches `p`. */
  ghost predicate Reached(xs: seq<BusyInterval>, p: int) {
    exists i :: 0 <= i < |xs| && xs[i].start < p <= xs[i].end
  }

  /** What covers an instant, and half a millisecond before it. */
  lemma CoversAround(xs: seq<BusyInterval>, p: int)
    requires Forward(xs)
    ensures Covers(xs, p as real) <==> StartsAt(xs, p) || Reached(xs, p)
    ensures Covers(xs, p as real - 0.5) <==> Reached(xs, p)
  {
    forall i | 0 <= i < |xs|
      ensures Within(xs[i], p as real) <==> xs[i].start == p || xs[i].start < p <= xs[i].end
      ensures Within(xs[i], p as real - 0.5) <==> xs[i].start < p <= xs[i].end
    {
    }
  }

  lemma SeparatedStart(blocks: seq<BusyInterval>, p: int)
    requires Separated(blocks) && StartsAt(blocks, p)
    ensures !Reached(blocks, p)
  {
    var i :| 0 <= i < |blocks| && blocks[i].start == p;
    forall j | 0 <= j < |blocks|
      ensures !(blocks[j].start < p <= blocks[j].end)
    {
      assert j < i ==> blocks[j].end < blocks[i].start;
      assert i < j ==> blocks[i].end < blocks[j].start;
    }
  }

  /** A block starts where an interval of its type opens, and nowhere else. */
  lemma BlocksStartWhereOpened(t: FbType, xs: seq<BusyInterval>, p: int)
    requires Forward(xs)
    ensures (exists b :: b in BlocksOf(t, xs) && b.start == p) <==> Opens(t, xs, p)
  {
    var mine, blocks := OfType(t, xs), BlocksOf(t, xs);
    BlocksOfType(t, xs);
    OfTypeMembers(t, xs);
    CoversAround(mine, p);
    CoversAround(blocks, p);
    if StartsAt(blocks, p) {
      SeparatedStart(blocks, p);
    }
    StartsAtMember(blocks, p);
    StartsAtMember(mine, p);
    ReachedMember(mine, p);
  }

  lemma OfTypeMembers(t: FbType, xs: seq<BusyInterval>)
    ensures forall x :: x in OfType(t, xs) <==> x in xs && x.fbtype == t
    ensures Forward(xs) ==> Forward(OfType(t, xs))
  {
    FilterMembers(Has(t), xs);
    forall i | Forward(xs) && 0 <= i < |OfType(t, xs)|
      ensures OfType(t, xs)[i].start <= OfType(t, xs)[i].end
    {
      assert OfType(t, xs)[i] in xs;
    }
  }

  lemma StartsAtMember(xs: seq<BusyInterval>, p: int)
    ensures StartsAt(xs, p) <==> exists x :: x in xs && x.start == p
  {
    if x :| x in xs && x.start == p {
      var i :| 0 <= i < |xs| && xs[i] == x;
    }
  }

  lemma ReachedMember(xs: seq<BusyInterval>, p: int)
    ensures Reached(xs, p) <==> exists x :: x in xs && x.start < p <= x.end
  {
    if x :| x in xs && x.start < p <= x.end {
      var i :| 0 <= i < |xs| && xs[i] == x;
    }
  }

  function At(start: int): BusyInterval -> bool {
    (x: BusyInterval) => x.start == start
  }

  lemma {:induction false} BlocksAt(blocks: seq<BusyInterval>, k: nat)
    requires Separated(blocks) && k < |blocks|
    ensures Filter(At(blocks[k].start), blocks) == [blocks[k]]
  {
    if k == 0 {
      SeparatedTail(blocks);
      FilterAll(At(blocks[0].start), blocks[1..]);
    } else {
      SeparatedTail(blocks);
      BlocksAt(blocks[1..], k - 1);
    }
  }

  lemma SeparatedTail(blocks: seq<BusyInterval>)
    requires Separated(blocks) && blocks != []
    ensures Separated(blocks[1..])
    ensures forall x :: x in blocks[1..] ==> blocks[0].start < x.start
  {
    forall x | x in blocks[1..]
      ensures blocks[0].start < x.start
    {
      var i :| 0 < i < |blocks| && blocks[i] == x;
      assert blocks[0].end < blocks[i].start;
    }
  }

  lemma TieShows(a: seq<BusyInterval>, b: seq<BusyInterval>, i: nat, j: nat)
    requires Separated(a) && Separated(b) && i < |a| && j < |b|
    requires a[i].start == b[j].start && a[i] != b[j]
    ensures StableSort(ByStart, a + b) != StableSort(ByStart, b + a)
  {
    var p, x, y := At(a[i].start), a[i], b[j];
    ByStartIsOrder();
    BlocksAt(a, i);
    BlocksAt(b, j);
    FilterConcat(p, a, b);
    FilterConcat(p, b, a);
    FilterSort(ByStart, p, a + b);
    FilterSort(ByStart, p, b + a);
    SortOfOrdered(ByStart, [x, y]);
    SortOfOrdered(ByStart, [y, x]);
    assert [x] + [y] == [x, y] && [y] + [x] == [y, x] && [x, y][0] != [y, x][0];
  }

  lemma MergedSeparates(a: seq<BusyInterval>, b: seq<BusyInterval>)
    requires Separated(a) && Separated(b)
    requires forall x, y :: x in a && y in b ==> x.start != y.start
    ensures Separates(ByStart, StableSort(ByStart, a + b))
  {
    var sorted := StableSort(ByStart, a + b);
    ByStartIsOrder();
    SortOrders(ByStart, a + b);
    SortMembers(ByStart, a + b);
    SeparatedStarts(a);
    SeparatedStarts(b);
    forall i, j | 0 <= i < j < |sorted| && ByStart(sorted[j], sorted[i])
      ensures sorted[i] == sorted[j]
    {
      assert ByStart(sorted[i], sorted[j]);
      assert sorted[i] in a + b && sorted[j] in a + b;
    }
  }

  lemma NoTieNoDifference(a: seq<BusyInterval>, b: seq<BusyInterval>)
    requires Separated(a) && Separated(b)
    requires forall x, y :: x in a && y in b ==> x.start != y.start
    ensures StableSort(ByStart, a + b) == StableSort(ByStart, b + a)
  {
    ByStartIsOrder();
    SortElements(ByStart, a + b);
    SortElements(ByStart, b + a);
    SortOrders(ByStart, a + b);
    SortOrders(ByStart, b + a);
    MergedSeparates(a, b);
    OrderedUnique(ByStart, StableSort(ByStart, a + b), StableSort(ByStart, b + a));
  }

  /** The blocks of two types merged by start: which list came first shows exactly where two starts tie. */
  lemma TieOrder(a: seq<BusyInterval>, b: seq<BusyInterval>)
    requires Separated(a) && Separated(b)
    requires forall x, y :: x in a && y in b ==> x != y
    ensures StableSort(ByStart, a + b) == StableSort(ByStart, b + a) <==>
            !exists x, y :: x in a && y in b && x.start == y.start
  {
    if x, y :| x in a && y in b && x.start == y.start {
      var i :| 0 <= i < |a| && a[i] == x;
      var j :| 0 <= j < |b| && b[j] == y;
      TieShows(a, b, i, j);
    } else {
      NoTieNoDifference(a, b);
    }
  }

  lemma SeparatedStarts(blocks: seq<BusyInterval>)
    requires Separated(blocks)
    ensures forall x, y :: x in blocks && y in blocks && x.start == y.start ==> x == y
  {
  }

  lemma {:induction false} FirstType(xs: seq<BusyInterval>)
    requires xs != []
    ensures TypeOrder(xs) != [] && TypeOrder(xs)[0] == xs[0].fbtype
  {
    if |xs| == 1 {
      assert xs[..0] == [];
    } else {
      FirstType(xs[..|xs| - 1]);
    }
  }

  lemma NoBlocks(xs: seq<BusyInterval>, t: FbType)
    requires Forward(xs) && t !in TypeOrder(xs)
    ensures BlocksOf(t, xs) == []
  {
    TypeOrderMembers(xs);
    FilterAll(Has(t), xs);
    BlocksOfType(t, xs);
  }

  function Other(t: FbType): FbType {
    if t == Busy then BusyTentative else Busy
  }

  /** The result is the blocks of the first interval's type, then those of the other type, sorted by start. */
  lemma CoalescedAsPair(xs: seq<BusyInterval>)
    requires Forward(xs) && xs != []
    ensures Coalesced(xs) == StableSort(ByStart, BlocksOf(xs[0].fbtype, xs) + BlocksOf(Other(xs[0].fbtype), xs))
  {
    var order, t := TypeOrder(xs), xs[0].fbtype;
    FirstType(xs);
    TypeOrderMembers(xs);
    assert Blocks(xs, [t]) == BlocksOf(t, xs) by {
      assert [t][..0] == [];
    }
    if |order| >= 2 {
      assert order[0] != order[1];
      assert |order| == 2 by {
        assert |order| > 2 ==> order[0] != order[2] && order[1] != order[2];
      }
      assert order[..1] == [t] && order[1] == Other(t);
    } else {
      assert order == [t];
      NoBlocks(xs, Other(t));
      assert BlocksOf(t, xs) + [] == BlocksOf(t, xs);
    }
  }

  /** Inputs that cover the same points have the same blocks of each type. The lists as a whole differ
      exactly if both types open at the same instant and the inputs begin with different types. */
  lemma SameCoverageInput(xs: seq<BusyInterval>, ys: seq<BusyInterval>)
    requires Forward(xs) && Forward(ys) && xs != [] && ys != []
    requires forall t :: SameCoverage(OfType(t, xs), OfType(t, ys))
    ensures forall t :: OfType(t, Coalesced(xs)) == OfType(t, Coalesced(ys))
    ensures Coalesced(xs) == Coalesced(ys) <==> !SharesStart(xs) || xs[0].fbtype == ys[0].fbtype
  {
    forall t
      ensures OfType(t, Coalesced(xs)) == OfType(t, Coalesced(ys)) && BlocksOf(t, xs) == BlocksOf(t, ys)
    {
      SameBlocks(xs, ys, t);
      CoalescedIs(xs);
      CoalescedIs(ys);
    }
    CoalescedAsPair(xs);
    CoalescedAsPair(ys);
    var t := xs[0].fbtype;
    BlocksOfType(t, xs);
    BlocksOfType(Other(t), xs);
    TieOrder(BlocksOf(t, xs), BlocksOf(Other(t), xs));
    BlocksShareStart(xs, t);
  }

  lemma BlocksShareStart(xs: seq<BusyInterval>, t: FbType)
    requires Forward(xs)
    ensures SharesStart(xs)
            <==> exists x, y :: x in BlocksOf(t, xs) && y in BlocksOf(Other(t), xs) && x.start == y.start
  {
    forall p, u
      ensures (exists b :: b in BlocksOf(u, xs) && b.start == p) <==> Opens(u, xs, p)
    {
      BlocksStartWhereOpened(u, xs, p);
    }
    if x, y :| x in BlocksOf(t, xs) && y in BlocksOf(Other(t), xs) && x.start == y.start {
      assert Opens(t, xs, x.start) && Opens(Other(t), xs, x.start);
    }
    if p :| Opens(Busy, xs, p) && Opens(BusyTentative, xs, p) {
      assert Opens(t, xs, p) && Opens(Other(t), xs, p);
    }
  }

  /** Permuting the input never changes the blocks of a type; it may change how ties between types are ordered. */
  lemma PermutedInput(xs: seq<BusyInterval>, ys: seq<BusyInterval>)
    requires Forward(xs) && multiset(xs) == multiset(ys) && xs != []
    ensures ys != [] && forall t :: OfType(t, Coalesced(xs)) == OfType(t, Coalesced(ys))
    ensures Coalesced(xs) == Coalesced(ys) <==> !SharesStart(xs) || xs[0].fbtype == ys[0].fbtype
  {
    assert |multiset(xs)| == |xs| && |multiset(ys)| == |ys|;
    forall x
      ensures x in xs <==> x in ys
    {
      assert x in xs <==> x in multiset(xs);
      assert x in ys <==> x in multiset(ys);
    }
    assert forall i :: 0 <= i < |ys| ==> ys[i] in xs;
    forall t
      ensures SameCoverage(OfType(t, xs), OfType(t, ys))
    {
      FilterMembers(Has(t), xs);
      FilterMembers(Has(t), ys);
      CoverageByMembers(OfType(t, xs), OfType(t, ys));
    }
    SameCoverageInput(xs, ys);
  }

  lemma CoveredByABlock(t: FbType, xs: seq<BusyInterval>, y: BusyInterval) returns (b: BusyInterval)
    requires Forward(xs) && y in xs && y.fbtype == t
    ensures b in BlocksOf(t, xs) && b.start <= y.start
  {
    var mine, blocks := OfType(t, xs), BlocksOf(t, xs);
    BlocksOfType(t, xs);
    OfTypeMembers(t, xs);
    var k :| 0 <= k < |mine| && mine[k] == y;
    var i :| 0 <= i < |xs| && xs[i] == y;
    assert Within(mine[k], y.start as real) && Covers(mine, y.start as real);
    var j :| 0 <= j < |blocks| && Within(blocks[j], y.start as real);
    b := blocks[j];
  }

  lemma FirstOfSorted(a: seq<BusyInterval>, b: seq<BusyInterval>)
    requires a != []
    ensures StableSort(ByStart, a + b) != []
    ensures (forall y :: y in a || y in b ==> a[0].start <= y.start) ==> StableSort(ByStart, a + b)[0] == a[0]
    ensures var first := StableSort(ByStart, a + b)[0];
            (first in a || first in b) && forall y :: y in a || y in b ==> first.start <= y.start
  {
    var rest := (a + b)[1..];
    ByStartIsOrder();
    SortMembers(ByStart, a + b);
    SortMembers(ByStart, rest);
    SortOrders(ByStart, a + b);
    var sorted := StableSort(ByStart, a + b);
    assert (a + b)[0] == a[0] && a[0] in sorted;
    assert sorted == Insert(ByStart, a[0], StableSort(ByStart, rest));
    if StableSort(ByStart, rest) != [] {
      assert StableSort(ByStart, rest)[0] in rest;
    }
    forall y | y in a || y in b
      ensures sorted[0].start <= y.start
    {
      assert y in sorted;
      var k :| 0 <= k < |sorted| && sorted[k] == y;
      assert k > 0 ==> ByStart(sorted[0], sorted[k]);
    }
    assert sorted[0] in sorted;
  }

  lemma Earliest(xs: seq<BusyInterval>, first: BusyInterval)
    requires Forward(xs) && forall t, b :: b in BlocksOf(t, xs) ==> first.start <= b.start
    requires first in BlocksOf(first.fbtype, xs)
    ensures exists x :: x in xs && x.fbtype == first.fbtype && x.start == first.start
    ensures forall y :: y in xs ==> first.start <= y.start
  {
    BlocksStartWhereOpened(first.fbtype, xs, first.start);
    assert Opens(first.fbtype, xs, first.start);
    forall y | y in xs
      ensures first.start <= y.start
    {
      var b := CoveredByABlock(y.fbtype, xs, y);
    }
  }

  /** The result begins with a block of the type the input begins with, exactly if no interval of the other type
      starts before all of that one. */
  lemma FirstBlock(xs: seq<BusyInterval>)
    requires Forward(xs) && xs != []
    ensures Coalesced(xs) != [] && (Coalesced(xs)[0].fbtype == xs[0].fbtype <==> BeginsEarliest(xs))
  {
    var t := xs[0].fbtype;
    var a, b := BlocksOf(t, xs), BlocksOf(Other(t), xs);
    BlocksOfType(t, xs);
    BlocksOfType(Other(t), xs);
    CoalescedAsPair(xs);
    var c := CoveredByABlock(t, xs, xs[0]);
    FirstOfSorted(a, b);
    var first := Coalesced(xs)[0];
    Earliest(xs, first);
    if x :| x in xs && x.fbtype == t && forall y :: y in xs ==> x.start <= y.start {
      AllBlocksAfter(xs, x.start);
      var d := CoveredByABlock(t, xs, x);
      SeparatedOrdered(a);
      var k :| 0 <= k < |a| && a[k] == d;
      assert k > 0 ==> ByStart(a[0], a[k]);
      assert a[0] in a;
    }
  }

  lemma AllBlocksAfter(xs: seq<BusyInterval>, p: int)
    requires Forward(xs) && forall y :: y in xs ==> p <= y.start
    ensures forall t, b :: b in BlocksOf(t, xs) ==> p <= b.start
  {
    forall t, b | b in BlocksOf(t, xs)
      ensures p <= b.start
    {
      BlocksStartWhereOpened(t, xs, b.start);
      assert Opens(t, xs, b.start);
    }
  }

  /** Coalescing twice never changes the blocks of a type. It changes the list exactly if both types open at the same
      instant and the type the input begins with is not among the earliest. */
  lemma CoalescedTwice(xs: seq<BusyInterval>)
    requires Forward(xs) && xs != []
    ensures Coalesced(xs) != [] && forall t :: OfType(t, Coalesced(Coalesced(xs))) == OfType(t, Coalesced(xs))
    ensures Coalesced(Coalesced(xs)) == Coalesced(xs) <==> !SharesStart(xs) || BeginsEarliest(xs)
  {
    var once := Coalesced(xs);
    CoalescedIs(xs);
    forall i | 0 <= i < |once|
      ensures once[i].start <= once[i].end
    {
      var t := once[i].fbtype;
      BlocksOfType(t, xs);
      FilterMembers(Has(t), once);
      assert once[i] in BlocksOf(t, xs);
    }
    forall t
      ensures SameCoverage(OfType(t, xs), OfType(t, once))
    {
      BlocksOfType(t, xs);
    }
    FirstBlock(xs);
    SameCoverageInput(xs, once);
  }

  /** Neither is a matter of theory: a busy hour and a tentative one that start together keep the order of the input. */
  lemma OrderOfInputShows()
    ensures var b, t := BusyInterval(0, 1, Busy), BusyInterval(0, 1, BusyTentative);
            multiset([b, t]) == multiset([t, b]) && Coalesced([b, t]) != Coalesced([t, b])
  {
    var b, t := BusyInterval(0, 1, Busy), BusyInterval(0, 1, BusyTentative);
    var xs, ys := [b, t], [t, b];
    assert multiset(xs) == multiset(ys);
    assert b in xs && t in xs;
    assert Opens(Busy, xs, 0) && Opens(BusyTentative, xs, 0);
    PermutedInput(xs, ys);
  }

  /** With an earlier tentative hour besides, the result begins with the tentative type, and coalescing it once more
      swaps the two. */
  lemma CoalescingAgainShows()
    ensures var xs := [BusyInterval(5, 6, Busy), BusyInterval(5, 6, BusyTentative), BusyInterval(0, 1, BusyTentative)];
            Coalesced(Coalesced(xs)) != Coalesced(xs)
  {
    var xs := [BusyInterval(5, 6, Busy), BusyInterval(5, 6, BusyTentative), BusyInterval(0, 1, BusyTentative)];
    assert xs[0] in xs && xs[1] in xs && xs[2] in xs;
    assert Opens(Busy, xs, 5) && Opens(BusyTentative, xs, 5);
    CoalescedTwice(xs);
  }
}
