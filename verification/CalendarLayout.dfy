/** The time grid and the bars of the calendar views (packages/admin-ui/src/lib/calendarLayout.ts).

    Both layouts colour intervals greedily: the first free column takes the next interval.
    The columns they use are exactly as many as intervals ever share a point. */
module CalendarLayout {
  import opened Sequences

  // ----- Greedy colouring of half-open spans -----

  datatype Span = Span(start: int, end: int)

  /** `findIndex`: the first column that is free at `start`, or a new one. */
  function FirstFree(ends: seq<int>, start: int, from: nat := 0): (c: nat)
    requires from <= |ends|
    ensures from <= c <= |ends|
    ensures c < |ends| ==> ends[c] <= start
    ensures forall k :: from <= k < c ==> ends[k] > start
    decreases |ends| - from
  {
    if from == |ends| || ends[from] <= start then from else FirstFree(ends, start, from + 1)
  }

  function Occupied(ends: seq<int>, c: nat, end: int): seq<int>
    requires c <= |ends|
  {
    if c < |ends| then ends[c := end] else ends + [end]
  }

  /** Of two spans in one column the earlier ends before the later starts. */
  ghost predicate Apart(spans: seq<Span>, columns: seq<nat>, i: nat, j: nat) {
    i < j < |spans| && j < |columns| && columns[i] == columns[j] ==> spans[i].end <= spans[j].start
  }

  /** No two spans of one column overlap. */
  ghost predicate Proper(spans: seq<Span>, columns: seq<nat>) {
    && |columns| == |spans|
    && forall i, j :: Apart(spans, columns, i, j)
  }

  ghost predicate Contains(spans: seq<Span>, i: nat, at: int) {
    i < |spans| && spans[i].start <= at < spans[i].end
  }

  /** Distinct spans that all contain the point `at`. */
  ghost predicate Crowd(spans: seq<Span>, crowd: seq<nat>, at: int) {
    && Distinct(crowd)
    && forall k :: 0 <= k < |crowd| ==> Contains(spans, crowd[k], at)
  }

  ghost predicate HasCrowd(spans: seq<Span>, n: nat) {
    exists crowd, at :: Crowd(spans, crowd, at) && |crowd| == n
  }

  /** `n` is the largest number of spans that share a point. */
  ghost predicate LargestCrowd(spans: seq<Span>, n: nat) {
    HasCrowd(spans, n) && forall crowd, at :: Crowd(spans, crowd, at) ==> |crowd| <= n
  }

  /** `last[c]` is the newest span of column `c`, which ends at `ends[c]`. */
  ghost predicate Newest(spans: seq<Span>, columns: seq<nat>, ends: seq<int>, last: seq<nat>, c: nat) {
    c < |ends| && c < |last| && last[c] < |spans| && last[c] < |columns| && columns[last[c]] == c
      && spans[last[c]].end == ends[c]
  }

  /** Span `i` ends no later than its column does. */
  ghost predicate Settled(spans: seq<Span>, columns: seq<nat>, ends: seq<int>, i: nat) {
    i < |spans| && i < |columns| && columns[i] < |ends| && spans[i].end <= ends[columns[i]]
  }

  /** The state of the colouring. */
  ghost predicate Greedy(spans: seq<Span>, columns: seq<nat>, ends: seq<int>, last: seq<nat>) {
    && Proper(spans, columns)
    && |last| == |ends|
    && (forall c :: 0 <= c < |ends| ==> Newest(spans, columns, ends, last, c))
    && (forall i :: 0 <= i < |spans| ==> Settled(spans, columns, ends, i))
  }

  lemma GreedyStep(spans: seq<Span>, columns: seq<nat>, ends: seq<int>, last: seq<nat>, x: Span)
      returns (next: seq<nat>)
    requires Greedy(spans, columns, ends, last)
    requires x.start < x.end || ends == []
    ensures var c := FirstFree(ends, x.start);
            Greedy(spans + [x], columns + [c], Occupied(ends, c, x.end), next)
  {
    var c, n := FirstFree(ends, x.start), |spans|;
    next := if c < |ends| then last[c := n] else last + [n];
    var spans', columns', ends' := spans + [x], columns + [c], Occupied(ends, c, x.end);
    forall i: nat, j: nat
      ensures Apart(spans', columns', i, j)
    {
      assert Apart(spans, columns, i, j);
      if i < n && j == n {
        assert Settled(spans, columns, ends, i);
      }
    }
    forall d | 0 <= d < |ends'|
      ensures Newest(spans', columns', ends', next, d)
    {
      assert d < |ends| ==> Newest(spans, columns, ends, last, d);
    }
    forall i | 0 <= i < |spans'|
      ensures Settled(spans', columns', ends', i)
    {
      assert i < n ==> Settled(spans, columns, ends, i);
    }
  }

  /** A column is added only for a span that starts inside a span of every other column. */
  lemma NewColumnIsNeeded(spans: seq<Span>, columns: seq<nat>, ends: seq<int>, last: seq<nat>, x: Span)
    requires Greedy(spans, columns, ends, last)
    requires x.start < x.end && forall i :: 0 <= i < |spans| ==> spans[i].start <= x.start
    requires FirstFree(ends, x.start) == |ends|
    ensures Crowd(spans + [x], last + [|spans|], x.start)
  {
    forall i, j | 0 <= i < j < |last|
      ensures last[i] != last[j]
    {
      assert Newest(spans, columns, ends, last, i) && Newest(spans, columns, ends, last, j);
    }
    forall k | 0 <= k < |last|
      ensures Contains(spans + [x], last[k], x.start) && last[k] < |spans|
    {
      assert Newest(spans, columns, ends, last, k);
    }
  }

  lemma CrowdGrows(spans: seq<Span>, more: seq<Span>, crowd: seq<nat>, at: int)
    requires Crowd(spans, crowd, at) && spans <= more
    ensures Crowd(more, crowd, at)
  {
    forall k | 0 <= k < |crowd|
      ensures Contains(more, crowd[k], at)
    {
      assert Contains(spans, crowd[k], at);
    }
  }

  lemma CrowdStep(spans: seq<Span>, columns: seq<nat>, ends: seq<int>, last: seq<nat>, crowd: seq<nat>, at: int,
                  x: Span)
      returns (crowd': seq<nat>, at': int)
    requires Greedy(spans, columns, ends, last)
    requires Crowd(spans, crowd, at) && |crowd| == |ends|
    requires forall i :: 0 <= i < |spans| ==> spans[i].start <= x.start
    ensures x.start < x.end ==>
              Crowd(spans + [x], crowd', at') && |crowd'| == |Occupied(ends, FirstFree(ends, x.start), x.end)|
  {
    if FirstFree(ends, x.start) == |ends| && x.start < x.end {
      NewColumnIsNeeded(spans, columns, ends, last, x);
      crowd', at' := last + [|spans|], x.start;
    } else {
      crowd', at' := crowd, at;
      CrowdGrows(spans, spans + [x], crowd, at);
    }
  }

  /** The colouring of one cluster, with the proof that its columns are needed: a crowd as large
      as their number. A span of no length is alone in its cluster. */
  ghost predicate Colouring(spans: seq<Span>, columns: seq<nat>, ends: seq<int>, last: seq<nat>, crowd: seq<nat>,
                            at: int) {
    && Greedy(spans, columns, ends, last)
    && (spans == [] <==> ends == [])
    && (if spans == [] || spans[0].start < spans[0].end then Crowd(spans, crowd, at) && |crowd| == |ends|
        else |spans| == 1 && |ends| == 1)
  }

  lemma ColouringStep(spans: seq<Span>, columns: seq<nat>, ends: seq<int>, last: seq<nat>, crowd: seq<nat>, at: int,
                      x: Span)
      returns (last': seq<nat>, crowd': seq<nat>, at': int)
    requires Colouring(spans, columns, ends, last, crowd, at)
    requires spans != [] ==> spans[0].start < spans[0].end && x.start < x.end
    requires forall i :: 0 <= i < |spans| ==> spans[i].start <= x.start
    ensures var c := FirstFree(ends, x.start);
            Colouring(spans + [x], columns + [c], Occupied(ends, c, x.end), last', crowd', at')
  {
    last' := GreedyStep(spans, columns, ends, last, x);
    crowd', at' := CrowdStep(spans, columns, ends, last, crowd, at, x);
  }

  /** Any colouring without overlaps needs a column for each member of a crowd. */
  lemma CrowdNeedsColumns(spans: seq<Span>, columns: seq<nat>, width: nat, crowd: seq<nat>, at: int)
    requires Proper(spans, columns) && Crowd(spans, crowd, at)
    requires forall i :: 0 <= i < |columns| ==> columns[i] < width
    ensures |crowd| <= width
  {
    var used := seq(|crowd|, (k: int) requires 0 <= k < |crowd| && crowd[k] < |columns| => columns[crowd[k]]);
    forall i, j | 0 <= i < j < |used|
      ensures used[i] != used[j]
    {
      assert crowd[i] != crowd[j];
      assert Contains(spans, crowd[i], at) && Contains(spans, crowd[j], at);
      assert Apart(spans, columns, crowd[i], crowd[j]) && Apart(spans, columns, crowd[j], crowd[i]);
    }
    Pigeonhole(used, width);
  }

  // ----- The time grid of one day -----

  /** Instants in milliseconds; `key` tells events apart. */
  datatype Event = Event(key: int, start: int, end: int, isAllDay: bool)

  datatype Item = Item(event: Event, top: int, height: int, before: bool, after: bool)

  datatype TimeBlock = TimeBlock(item: Item, column: nat, columns: nat)

  const MIN_BLOCK_MINUTES := 20
  const MINUTES_PER_DAY := 24 * 60
  const MINUTE_MS := 60_000

  function Max(a: int, b: int): int { if a > b then a else b }
  function Min(a: int, b: int): int { if a < b then a else b }

  /** `Math.round(ms / 60_000)`: halves go up, also below zero. */
  function RoundToMinutes(ms: int): int {
    (ms + MINUTE_MS / 2) / MINUTE_MS
  }

  function LastInstant(e: Event): int {
    if e.end > e.start then e.end - 1 else e.start
  }

  predicate TouchesDay(e: Event, dayStart: int, dayEnd: int) {
    !e.isAllDay && e.start < dayEnd && LastInstant(e) >= dayStart
  }

  function ItemOf(e: Event, dayStart: int, dayEnd: int): (item: Item)
    requires dayStart < dayEnd && TouchesDay(e, dayStart, dayEnd)
    ensures item.top >= 0 && item.top + item.height <= MINUTES_PER_DAY
    ensures item.height > 0 <==> item.top < MINUTES_PER_DAY
  {
    var start, end := Max(e.start, dayStart), Min(e.end, dayEnd);
    var top := RoundToMinutes(start - dayStart);
    var length := Max(MIN_BLOCK_MINUTES, RoundToMinutes(end - start));
    Item(e, top, Min(length, MINUTES_PER_DAY - top), e.start < dayStart, e.end > dayEnd)
  }

  function ItemsOn(events: seq<Event>, dayStart: int, dayEnd: int): (items: seq<Item>)
    requires dayStart < dayEnd
    ensures forall i :: 0 <= i < |items| ==> Fits(items[i])
  {
    if events == [] then []
    else
      var rest := ItemsOn(events[1..], dayStart, dayEnd);
      if TouchesDay(events[0], dayStart, dayEnd) then [ItemOf(events[0], dayStart, dayEnd)] + rest else rest
  }

  /** What cutting at the edges of the day gives: nothing ends after it, and only what starts in it has a height. */
  ghost predicate Fits(item: Item) {
    && item.top >= 0
    && item.top + item.height <= MINUTES_PER_DAY
    && (item.height > 0 <==> item.top < MINUTES_PER_DAY)
  }

  predicate ByTop(a: Item, b: Item) {
    a.top < b.top || (a.top == b.top && a.height >= b.height)
  }

  function SpanOf(item: Item): Span {
    Span(item.top, item.top + item.height)
  }

  function Spans(items: seq<Item>): (spans: seq<Span>)
    ensures |spans| == |items|
    ensures forall i :: 0 <= i < |items| ==> spans[i] == SpanOf(items[i])
  {
    seq(|items|, (i: int) requires 0 <= i < |items| => SpanOf(items[i]))
  }

  /** The latest end so far, from -1 on; it is never reset. */
  function MaxEnd(items: seq<Item>, n: nat): (end: int)
    requires n <= |items|
    ensures forall i :: 0 <= i < n ==> items[i].top + items[i].height <= end
    ensures (forall i :: 0 <= i < n ==> items[i].top + items[i].height <= MINUTES_PER_DAY) ==> end <= MINUTES_PER_DAY
  {
    if n == 0 then -1 else Max(MaxEnd(items, n - 1), items[n - 1].top + items[n - 1].height)
  }

  /** A cluster starts at an item that starts no earlier than everything before it ends. */
  predicate StartsCluster(items: seq<Item>, i: nat)
    requires i < |items|
  {
    i == 0 || items[i].top >= MaxEnd(items, i)
  }

  function ClusterFrom(items: seq<Item>, i: nat): (from: nat)
    requires i < |items|
    ensures from <= i && StartsCluster(items, from)
    ensures forall k :: from < k <= i ==> !StartsCluster(items, k)
  {
    if StartsCluster(items, i) then i else ClusterFrom(items, i - 1)
  }

  function ClusterTo(items: seq<Item>, i: nat): (to: nat)
    requires i < |items|
    ensures i < to <= |items|
    ensures to < |items| ==> StartsCluster(items, to)
    ensures forall k :: i < k < to ==> !StartsCluster(items, k)
    decreases |items| - i
  {
    if i + 1 == |items| || StartsCluster(items, i + 1) then i + 1 else ClusterTo(items, i + 1)
  }

  function ColumnsOf(blocks: seq<TimeBlock>): (columns: seq<nat>)
    ensures |columns| == |blocks|
    ensures forall i :: 0 <= i < |blocks| ==> columns[i] == blocks[i].column
  {
    seq(|blocks|, (i: int) requires 0 <= i < |blocks| => blocks[i].column)
  }

  /** One finished cluster: the blocks of one column never overlap, all are told how many columns
      there are, and so many blocks do share a minute (a block the day's edge cut down to nothing
      shares none, and stands alone in one column). */
  ghost predicate LaidOut(items: seq<Item>, blocks: seq<TimeBlock>) {
    && |blocks| == |items| && items != []
    && (forall i :: 0 <= i < |blocks| ==>
          blocks[i].item == items[i] && blocks[i].columns == blocks[0].columns && blocks[i].column < blocks[0].columns)
    && Proper(Spans(items), ColumnsOf(blocks))
    && (if items[0].height > 0 then HasCrowd(Spans(items), blocks[0].columns)
        else |items| == 1 && blocks[0].columns == 1)
  }

  ghost predicate Filled(items: seq<Item>, lo: nat, cluster: seq<TimeBlock>, spans: seq<Span>, columns: seq<nat>,
                         i: nat) {
    && i < |cluster| && lo + i < |items| && i < |spans| && i < |columns|
    && cluster[i] == TimeBlock(items[lo + i], columns[i], 1) && spans[i] == SpanOf(items[lo + i])
  }

  /** The cluster that is being filled: items `lo` to `lo + |cluster|`, with their columns so far. */
  ghost predicate Filling(items: seq<Item>, lo: nat, cluster: seq<TimeBlock>, spans: seq<Span>, columns: seq<nat>) {
    && lo + |cluster| <= |items| && |spans| == |columns| == |cluster|
    && forall i :: 0 <= i < |cluster| ==> Filled(items, lo, cluster, spans, columns, i)
  }

  lemma FillStep(items: seq<Item>, lo: nat, cluster: seq<TimeBlock>, spans: seq<Span>, columns: seq<nat>, column: nat)
    requires Filling(items, lo, cluster, spans, columns) && lo + |cluster| < |items|
    ensures var item := items[lo + |cluster|];
            Filling(items, lo, cluster + [TimeBlock(item, column, 1)], spans + [SpanOf(item)], columns + [column])
  {
    var item := items[lo + |cluster|];
    forall i | 0 <= i <= |cluster|
      ensures Filled(items, lo, cluster + [TimeBlock(item, column, 1)], spans + [SpanOf(item)], columns + [column], i)
    {
      assert i < |cluster| ==> Filled(items, lo, cluster, spans, columns, i);
    }
  }

  lemma FilledIsLaidOut(items: seq<Item>, lo: nat, cluster: seq<TimeBlock>, spans: seq<Span>, columns: seq<nat>,
                        ends: seq<int>, last: seq<nat>, crowd: seq<nat>, at: int, closed: seq<TimeBlock>)
    requires Filling(items, lo, cluster, spans, columns) && cluster != []
    requires Colouring(spans, columns, ends, last, crowd, at)
    requires |closed| == |cluster| && forall i :: 0 <= i < |closed| ==> closed[i] == cluster[i].(columns := |ends|)
    ensures LaidOut(items[lo..lo + |cluster|], closed)
  {
    var mine := items[lo..lo + |cluster|];
    forall i | 0 <= i < |cluster|
      ensures spans[i] == SpanOf(mine[i]) && closed[i] == TimeBlock(mine[i], columns[i], |ends|) && columns[i] < |ends|
    {
      assert Filled(items, lo, cluster, spans, columns, i);
      assert Settled(spans, columns, ends, i);
    }
    assert Spans(mine) == spans;
    assert ColumnsOf(closed) == columns;
  }

  /** The cluster of item `i` lies within the first `n` items and is laid out. */
  ghost predicate ClusterLaidOut(items: seq<Item>, placed: seq<TimeBlock>, n: nat, i: nat) {
    && i < |items| && ClusterTo(items, i) <= n <= |placed|
    && LaidOut(items[ClusterFrom(items, i)..ClusterTo(items, i)], placed[ClusterFrom(items, i)..ClusterTo(items, i)])
  }

  /** Every cluster among the first `n` items, which end with a cluster, is laid out. */
  ghost predicate LaidOutUpTo(items: seq<Item>, placed: seq<TimeBlock>, n: nat) {
    n <= |placed| && forall i :: 0 <= i < n ==> ClusterLaidOut(items, placed, n, i)
  }

  lemma ClusterBounds(items: seq<Item>, lo: nat, hi: nat, i: nat)
    requires lo <= i < hi <= |items|
    requires StartsCluster(items, lo) && (hi == |items| || StartsCluster(items, hi))
    requires forall k :: lo < k < hi ==> !StartsCluster(items, k)
    ensures ClusterFrom(items, i) == lo && ClusterTo(items, i) == hi
  {
  }

  lemma OldClusterStays(items: seq<Item>, placed: seq<TimeBlock>, closed: seq<TimeBlock>, hi: nat, i: nat)
    requires ClusterLaidOut(items, placed, |placed|, i) && |placed| <= hi <= |placed| + |closed|
    ensures ClusterLaidOut(items, placed + closed, hi, i)
  {
    var from, to := ClusterFrom(items, i), ClusterTo(items, i);
    assert (placed + closed)[from..to] == placed[from..to];
  }

  lemma NewClusterIsLaidOut(items: seq<Item>, placed: seq<TimeBlock>, closed: seq<TimeBlock>, i: nat)
    requires |placed| <= i < |placed| + |closed| <= |items|
    requires ClusterFrom(items, i) == |placed| && ClusterTo(items, i) == |placed| + |closed|
    requires LaidOut(items[|placed|..|placed| + |closed|], closed)
    ensures ClusterLaidOut(items, placed + closed, |placed| + |closed|, i)
  {
    assert (placed + closed)[|placed|..|placed| + |closed|] == closed;
  }

  /** The items from `lo` to `hi` are one cluster. */
  ghost predicate IsCluster(items: seq<Item>, lo: nat, hi: nat) {
    && lo < hi <= |items| && StartsCluster(items, lo) && (hi == |items| || StartsCluster(items, hi))
    && forall k :: lo < k < hi ==> !StartsCluster(items, k)
  }

  lemma EachClusterClosed(items: seq<Item>, placed: seq<TimeBlock>, lo: nat, hi: nat, closed: seq<TimeBlock>, i: nat)
    requires LaidOutUpTo(items, placed, lo) && |placed| == lo && IsCluster(items, lo, hi) && i < hi
    requires |closed| == hi - lo && LaidOut(items[lo..hi], closed)
    ensures ClusterLaidOut(items, placed + closed, hi, i)
  {
    if i < lo {
      OldClusterStays(items, placed, closed, hi, i);
    } else {
      ClusterBounds(items, lo, hi, i);
      NewClusterIsLaidOut(items, placed, closed, i);
    }
  }

  lemma ClusterClosed(items: seq<Item>, placed: seq<TimeBlock>, lo: nat, hi: nat, closed: seq<TimeBlock>)
    requires LaidOutUpTo(items, placed, lo) && |placed| == lo && IsCluster(items, lo, hi)
    requires LaidOut(items[lo..hi], closed)
    ensures LaidOutUpTo(items, placed + closed, hi)
  {
    forall i | 0 <= i < hi
      ensures ClusterLaidOut(items, placed + closed, hi, i)
    {
      EachClusterClosed(items, placed, lo, hi, closed, i);
    }
  }

  ghost predicate Fitted(items: seq<Item>, i: nat) {
    i < |items| ==> Fits(items[i])
  }

  ghost predicate InOrder(items: seq<Item>, i: nat, j: nat) {
    i < j < |items| ==> items[i].top <= items[j].top
  }

  /** What the items of a day are: cut to the day, and sorted. */
  ghost predicate Grid(items: seq<Item>) {
    (forall i :: Fitted(items, i)) && (forall i, j :: InOrder(items, i, j))
  }

  lemma EdgeStartsCluster(items: seq<Item>, k: nat)
    requires k < |items| && Grid(items)
    requires items[k].top >= MINUTES_PER_DAY
    ensures StartsCluster(items, k)
  {
    forall i | 0 <= i < k
      ensures items[i].top + items[i].height <= MINUTES_PER_DAY
    {
      assert Fitted(items, i);
    }
  }

  /** Items `lo` to `k` are of one cluster, and those before them are laid out. */
  ghost predicate Placing(items: seq<Item>, k: nat, lo: nat, placed: seq<TimeBlock>) {
    && lo <= k <= |items| && |placed| == lo
    && LaidOutUpTo(items, placed, lo)
    && (lo < |items| ==> StartsCluster(items, lo))
    && forall i :: lo < i < k ==> !StartsCluster(items, i)
  }

  lemma SameCluster(items: seq<Item>, k: nat, lo: nat, placed: seq<TimeBlock>)
    requires Placing(items, k, lo, placed) && k < |items| && (lo < k ==> items[k].top < MaxEnd(items, k))
    ensures Placing(items, k + 1, lo, placed)
  {
  }

  lemma NextFits(items: seq<Item>, k: nat, lo: nat, cluster: seq<TimeBlock>, spans: seq<Span>, columns: seq<nat>)
    requires lo <= k < |items| && k == lo + |cluster| && Grid(items) && (lo < k ==> items[k].top < MaxEnd(items, k))
    requires Filling(items, lo, cluster, spans, columns)
    ensures spans != [] ==> spans[0].start < spans[0].end && items[k].height > 0
    ensures forall i :: 0 <= i < |spans| ==> spans[i].start <= items[k].top
  {
    forall i | 0 <= i < |spans|
      ensures spans[i].start <= items[k].top
    {
      assert Filled(items, lo, cluster, spans, columns, i);
      assert InOrder(items, lo + i, k);
    }
    assert Fitted(items, lo) && Fitted(items, k) && InOrder(items, lo, k);
    assert lo < k ==> Filled(items, lo, cluster, spans, columns, 0);
    if lo < k && items[k].top >= MINUTES_PER_DAY {
      EdgeStartsCluster(items, k);
    }
  }

  /** What the proof keeps of the cluster being filled. */
  datatype Draft = Draft(lo: nat, spans: seq<Span>, columns: seq<nat>, last: seq<nat>, crowd: seq<nat>, at: int)

  /** The loop's invariant before item `k`. */
  ghost predicate Working(items: seq<Item>, k: nat, placed: seq<TimeBlock>, cluster: seq<TimeBlock>, ends: seq<int>,
                          d: Draft) {
    && Placing(items, k, d.lo, placed)
    && k == d.lo + |cluster|
    && Filling(items, d.lo, cluster, d.spans, d.columns)
    && Colouring(d.spans, d.columns, ends, d.last, d.crowd, d.at)
  }

  /** The loop's invariant before item `k`, whatever the draft. */
  ghost predicate InProgress(items: seq<Item>, k: nat, placed: seq<TimeBlock>, cluster: seq<TimeBlock>,
                             ends: seq<int>) {
    exists d: Draft :: Working(items, k, placed, cluster, ends, d)
  }

  lemma StartOfCluster(items: seq<Item>, k: nat, placed: seq<TimeBlock>)
    requires k <= |items| && |placed| == k && LaidOutUpTo(items, placed, k)
    requires k < |items| ==> StartsCluster(items, k)
    ensures InProgress(items, k, placed, [], [])
  {
    assert Working(items, k, placed, [], [], Draft(k, [], [], [], [], 0));
  }

  lemma CloseStep(items: seq<Item>, k: nat, placed: seq<TimeBlock>, cluster: seq<TimeBlock>, ends: seq<int>,
                  closed: seq<TimeBlock>)
    requires InProgress(items, k, placed, cluster, ends) && cluster != []
    requires k == |items| || items[k].top >= MaxEnd(items, k)
    requires |closed| == |cluster| && forall i :: 0 <= i < |closed| ==> closed[i] == cluster[i].(columns := |ends|)
    ensures InProgress(items, k, placed + closed, [], [])
    ensures |placed + closed| == k && LaidOutUpTo(items, placed + closed, k)
  {
    var lo := Finished(items, k, placed, cluster, ends, closed);
    ClusterClosed(items, placed, lo, k, closed);
    StartOfCluster(items, k, placed + closed);
  }

  lemma Finished(items: seq<Item>, k: nat, placed: seq<TimeBlock>, cluster: seq<TimeBlock>, ends: seq<int>,
                 closed: seq<TimeBlock>)
      returns (lo: nat)
    requires InProgress(items, k, placed, cluster, ends) && cluster != []
    requires |closed| == |cluster| && forall i :: 0 <= i < |closed| ==> closed[i] == cluster[i].(columns := |ends|)
    ensures lo < k && Placing(items, k, lo, placed) && LaidOut(items[lo..k], closed)
  {
    var d: Draft :| Working(items, k, placed, cluster, ends, d);
    lo := d.lo;
    FilledIsLaidOut(items, lo, cluster, d.spans, d.columns, ends, d.last, d.crowd, d.at, closed);
  }

  lemma AddStep(items: seq<Item>, k: nat, placed: seq<TimeBlock>, cluster: seq<TimeBlock>, ends: seq<int>)
    requires InProgress(items, k, placed, cluster, ends) && k < |items| && Grid(items)
    requires cluster != [] ==> items[k].top < MaxEnd(items, k)
    ensures var c := FirstFree(ends, items[k].top);
            InProgress(items, k + 1, placed, cluster + [TimeBlock(items[k], c, 1)],
                       Occupied(ends, c, items[k].top + items[k].height))
  {
    var d: Draft :| Working(items, k, placed, cluster, ends, d);
    var c, x := FirstFree(ends, items[k].top), SpanOf(items[k]);
    NextFits(items, k, d.lo, cluster, d.spans, d.columns);
    var last, crowd, at := ColouringStep(d.spans, d.columns, ends, d.last, d.crowd, d.at, x);
    FillStep(items, d.lo, cluster, d.spans, d.columns, c);
    SameCluster(items, k, d.lo, placed);
    assert Working(items, k + 1, placed, cluster + [TimeBlock(items[k], c, 1)], Occupied(ends, c, x.end),
                   Draft(d.lo, d.spans + [x], d.columns + [c], last, crowd, at));
  }

  /** `closeCluster`: every block learns the number of columns, then the cluster joins the result. */
  method CloseCluster(ghost items: seq<Item>, ghost k: nat, placed: seq<TimeBlock>, cluster: seq<TimeBlock>,
                      columnEnds: seq<int>)
      returns (placed': seq<TimeBlock>)
    requires InProgress(items, k, placed, cluster, columnEnds) && cluster != []
    requires k == |items| || items[k].top >= MaxEnd(items, k)
    ensures InProgress(items, k, placed', [], []) && LaidOutUpTo(items, placed', k) && |placed'| == k
  {
    var closed := cluster;
    for j := 0 to |closed|
      invariant |closed| == |cluster|
      invariant forall i :: 0 <= i < |closed| ==>
                  closed[i] == if i < j then cluster[i].(columns := |columnEnds|) else cluster[i]
    {
      closed := closed[j := closed[j].(columns := |columnEnds|)];
    }
    CloseStep(items, k, placed, cluster, columnEnds, closed);
    placed' := placed + closed;
  }

  /** The loop over the sorted items. */
  method PlaceItems(items: seq<Item>) returns (placed: seq<TimeBlock>)
    requires Grid(items)
    ensures |placed| == |items| && LaidOutUpTo(items, placed, |items|)
  {
    placed := [];
    var cluster: seq<TimeBlock>, clusterEnd, columnEnds: seq<int> := [], -1, [];
    StartOfCluster(items, 0, []);
    for k := 0 to |items|
      invariant InProgress(items, k, placed, cluster, columnEnds)
      invariant clusterEnd == MaxEnd(items, k)
      invariant k > 0 ==> cluster != []
    {
      var item := items[k];
      if item.top >= clusterEnd && |cluster| > 0 {
        placed := CloseCluster(items, k, placed, cluster, columnEnds);
        cluster, columnEnds := [], [];
      }
      AddStep(items, k, placed, cluster, columnEnds);
      var column := FirstFree(columnEnds, item.top);
      columnEnds := Occupied(columnEnds, column, item.top + item.height);
      clusterEnd := Max(clusterEnd, item.top + item.height);
      cluster := cluster + [TimeBlock(item, column, 1)];
    }
    if |cluster| > 0 {
      placed := CloseCluster(items, |items|, placed, cluster, columnEnds);
    }
  }

  method LayoutTimeColumn(events: seq<Event>, dayStart: int, dayEnd: int) returns (placed: seq<TimeBlock>)
    requires dayStart < dayEnd
    ensures var items := StableSort(ByTop, ItemsOn(events, dayStart, dayEnd));
            |placed| == |items| && LaidOutUpTo(items, placed, |items|)
  {
    var items := StableSort(ByTop, ItemsOn(events, dayStart, dayEnd));
    ItemsSorted(events, dayStart, dayEnd);
    placed := PlaceItems(items);
  }

  lemma ItemsSorted(events: seq<Event>, dayStart: int, dayEnd: int)
    requires dayStart < dayEnd
    ensures var items := StableSort(ByTop, ItemsOn(events, dayStart, dayEnd));
            && Grid(items)
            && multiset(items) == multiset(ItemsOn(events, dayStart, dayEnd))
  {
    var unsorted := ItemsOn(events, dayStart, dayEnd);
    var items := StableSort(ByTop, unsorted);
    SortOrders(ByTop, unsorted);
    SortElements(ByTop, unsorted);
    SortMembers(ByTop, unsorted);
    assert forall i :: 0 <= i < |items| ==> items[i] in unsorted;
    forall i: nat, j: nat
      ensures InOrder(items, i, j)
    {
      assert i < j < |items| ==> ByTop(items[i], items[j]);
    }
  }

  // ----- What the grid looks like -----

  lemma CrowdsWithinColumns(items: seq<Item>, blocks: seq<TimeBlock>, crowd: seq<nat>, at: int)
    requires LaidOut(items, blocks) && Crowd(Spans(items), crowd, at)
    ensures |crowd| <= blocks[0].columns
  {
    CrowdNeedsColumns(Spans(items), ColumnsOf(blocks), blocks[0].columns, crowd, at);
  }

  /** The columns of a cluster are the largest number of its blocks that share a minute,
      exactly if the block does not start past the last minute of a 24-hour day. */
  lemma ColumnsAreLargestCrowd(items: seq<Item>, blocks: seq<TimeBlock>)
    requires LaidOut(items, blocks) && Fits(items[0])
    ensures LargestCrowd(Spans(items), blocks[0].columns) <==> items[0].top < MINUTES_PER_DAY
    ensures items[0].top >= MINUTES_PER_DAY ==> |items| == 1 && blocks[0].columns == 1
  {
    forall crowd, at | Crowd(Spans(items), crowd, at)
      ensures |crowd| <= blocks[0].columns
    {
      CrowdsWithinColumns(items, blocks, crowd, at);
    }
    if items[0].top >= MINUTES_PER_DAY {
      forall crowd, at | Crowd(Spans(items), crowd, at)
        ensures |crowd| == 0
      {
        assert |crowd| > 0 ==> Contains(Spans(items), crowd[0], at);
      }
    }
  }

  /** No other way to share out columns without overlap needs fewer of them. */
  lemma ColumnsAreOptimal(items: seq<Item>, blocks: seq<TimeBlock>, others: seq<nat>, width: nat)
    requires LaidOut(items, blocks) && items[0].height > 0
    requires Proper(Spans(items), others) && forall i :: 0 <= i < |others| ==> others[i] < width
    ensures blocks[0].columns <= width
  {
    var crowd, at :| Crowd(Spans(items), crowd, at) && |crowd| == blocks[0].columns;
    CrowdNeedsColumns(Spans(items), others, width, crowd, at);
  }

  /** The result as a whole: the items of the day in order of start, blocks that overlap side by side
      in one cluster, and blocks of different clusters apart. */
  lemma GridIsCorrect(items: seq<Item>, placed: seq<TimeBlock>, i: nat, j: nat)
    requires Grid(items) && |placed| == |items| && LaidOutUpTo(items, placed, |items|)
    requires i < j < |items|
    ensures placed[i].item == items[i] && placed[j].item == items[j]
    ensures ClusterFrom(items, i) != ClusterFrom(items, j) ==> items[i].top + items[i].height <= items[j].top
    ensures items[j].top < items[i].top + items[i].height ==>
              placed[i].columns == placed[j].columns && placed[i].column != placed[j].column
  {
    BlockOf(items, placed, i);
    BlockOf(items, placed, j);
    if ClusterFrom(items, i) == ClusterFrom(items, j) {
      SameBounds(items, i, j);
      assert ClusterLaidOut(items, placed, |items|, i);
      SideBySide(items, placed, ClusterFrom(items, i), ClusterTo(items, i), i, j);
    } else {
      ClustersApart(items, i, j);
    }
  }

  lemma SideBySide(items: seq<Item>, placed: seq<TimeBlock>, from: nat, to: nat, i: nat, j: nat)
    requires from <= i < j < to <= |items| == |placed| && LaidOut(items[from..to], placed[from..to])
    ensures placed[i].column == placed[j].column ==> items[i].top + items[i].height <= items[j].top
  {
    var mine, blocks := items[from..to], placed[from..to];
    assert mine[i - from] == items[i] && mine[j - from] == items[j];
    assert blocks[i - from] == placed[i] && blocks[j - from] == placed[j];
    assert Apart(Spans(mine), ColumnsOf(blocks), i - from, j - from);
  }

  lemma BlockOf(items: seq<Item>, placed: seq<TimeBlock>, i: nat)
    requires |placed| == |items| && LaidOutUpTo(items, placed, |items|) && i < |items|
    ensures placed[i].item == items[i] && placed[i].columns == placed[ClusterFrom(items, i)].columns
  {
    var from, to := ClusterFrom(items, i), ClusterTo(items, i);
    assert ClusterLaidOut(items, placed, |items|, i);
    assert placed[from..to][i - from] == placed[i] && items[from..to][i - from] == items[i];
    assert placed[from..to][0] == placed[from];
  }

  lemma SameBounds(items: seq<Item>, i: nat, j: nat)
    requires i < j < |items| && ClusterFrom(items, i) == ClusterFrom(items, j)
    ensures j < ClusterTo(items, i)
  {
  }

  lemma ClustersApart(items: seq<Item>, i: nat, j: nat)
    requires Grid(items) && i < j < |items| && ClusterFrom(items, i) != ClusterFrom(items, j)
    ensures items[i].top + items[i].height <= items[j].top
  {
    var from := ClusterFrom(items, j);
    assert InOrder(items, from, j);
    assert i < from;
  }

  /** On a day of any length, `top` passes the last minute exactly for an event that starts
      less than half a minute before 24 hours after midnight, or later. */
  lemma TopPastTheDay(e: Event, dayStart: int, dayEnd: int)
    requires dayStart < dayEnd && TouchesDay(e, dayStart, dayEnd)
    ensures ItemOf(e, dayStart, dayEnd).top >= MINUTES_PER_DAY <==>
            e.start - dayStart >= MINUTES_PER_DAY * MINUTE_MS - MINUTE_MS / 2
  {
  }

  /** The last half minute of a day of 24 hours. */
  lemma LateEventHasNoHeight(key: int)
    ensures var dayEnd := MINUTES_PER_DAY * MINUTE_MS;
            var e := Event(key, dayEnd - MINUTE_MS / 2, dayEnd, false);
            && TouchesDay(e, 0, dayEnd)
            && ItemOf(e, 0, dayEnd) == Item(e, MINUTES_PER_DAY, 0, false, false)
  {
  }

  /** The blocks are the day's items, none lost or added, whatever the order of the events. */
  lemma GridHoldsTheDay(events: seq<Event>, dayStart: int, dayEnd: int, placed: seq<TimeBlock>)
    requires dayStart < dayEnd
    requires var items := StableSort(ByTop, ItemsOn(events, dayStart, dayEnd));
             |placed| == |items| && LaidOutUpTo(items, placed, |items|)
    ensures multiset(seq(|placed|, (i: int) requires 0 <= i < |placed| => placed[i].item))
            == multiset(ItemsOn(events, dayStart, dayEnd))
  {
    var items := StableSort(ByTop, ItemsOn(events, dayStart, dayEnd));
    ItemsSorted(events, dayStart, dayEnd);
    forall i | 0 <= i < |items|
      ensures placed[i].item == items[i]
    {
      BlockOf(items, placed, i);
    }
    assert seq(|placed|, (i: int) requires 0 <= i < |placed| => placed[i].item) == items;
  }

  lemma {:induction false} EndReached(items: seq<Item>, n: nat) returns (k: nat)
    requires 0 < n <= |items| && MaxEnd(items, n) >= 0
    ensures k < n && items[k].top + items[k].height == MaxEnd(items, n)
  {
    if items[n - 1].top + items[n - 1].height > MaxEnd(items, n - 1) || n == 1 {
      k := n - 1;
    } else {
      k := EndReached(items, n - 1);
    }
  }

  /** A block shares the width of its cluster only because it begins inside an earlier one of the cluster. */
  lemma ClusterHangsTogether(items: seq<Item>, i: nat) returns (k: nat)
    requires Grid(items) && i < |items| && ClusterFrom(items, i) != i
    ensures ClusterFrom(items, i) <= k < i && items[k].top <= items[i].top < items[k].top + items[k].height
  {
    assert Fitted(items, i);
    k := EndReached(items, i);
    assert InOrder(items, k, i) && InOrder(items, ClusterFrom(items, i), i);
  }

  // ----- What the grid shows of the events -----

  /** A timed event has some of its time on the day, or is a point in it. */
  predicate ShownOn(e: Event, dayStart: int, dayEnd: int) {
    && !e.isAllDay && e.start < dayEnd
    && if e.start < e.end then dayStart < e.end else dayStart <= e.start
  }

  function Showing(dayStart: int, dayEnd: int): Event -> bool {
    (e: Event) => ShownOn(e, dayStart, dayEnd)
  }

  function EventsOf(items: seq<Item>): seq<Event> {
    if items == [] then [] else [items[0].event] + EventsOf(items[1..])
  }

  /** The events with an item are those shown on the day, in the order given, and each item is that of its event. */
  lemma {:induction false} ItemsAre(events: seq<Event>, dayStart: int, dayEnd: int)
    requires dayStart < dayEnd
    ensures EventsOf(ItemsOn(events, dayStart, dayEnd)) == Filter(Showing(dayStart, dayEnd), events)
    ensures forall x :: x in ItemsOn(events, dayStart, dayEnd) ==>
              TouchesDay(x.event, dayStart, dayEnd) && x == ItemOf(x.event, dayStart, dayEnd)
  {
    if events == [] {
    } else {
      ItemsAre(events[1..], dayStart, dayEnd);
      assert TouchesDay(events[0], dayStart, dayEnd) <==> ShownOn(events[0], dayStart, dayEnd);
      if TouchesDay(events[0], dayStart, dayEnd) {
        var rest := ItemsOn(events[1..], dayStart, dayEnd);
        assert ([ItemOf(events[0], dayStart, dayEnd)] + rest)[1..] == rest;
      }
    }
  }

  /** The stretch of the day that the event takes up, from when to when. */
  function CutStart(e: Event, dayStart: int): int {
    if e.start < dayStart then dayStart else e.start
  }

  function CutEnd(e: Event, dayEnd: int): int {
    if e.end > dayEnd then dayEnd else e.end
  }

  lemma Rounded(ms: int)
    ensures ms - 30_000 < RoundToMinutes(ms) * 60_000 <= ms + 30_000
  {
  }

  /** A block starts within half a minute of its event. It ends within a minute of it, if the event takes up at least
      20 minutes and ends by minute 1440 of the day; if it takes up less, the block is 20 minutes tall or reaches
      minute 1440. */
  lemma BlockIsAtItsTime(e: Event, dayStart: int, dayEnd: int)
    requires dayStart < dayEnd && ShownOn(e, dayStart, dayEnd)
    ensures TouchesDay(e, dayStart, dayEnd)
    ensures var x, start, end := ItemOf(e, dayStart, dayEnd), CutStart(e, dayStart), CutEnd(e, dayEnd);
            && x.event == e && (x.before <==> e.start < dayStart) && (x.after <==> e.end > dayEnd)
            && start - 30_000 < dayStart + x.top * 60_000 <= start + 30_000
            && (end - start >= 1_200_000 && end <= dayStart + 86_400_000 ==>
                  end - 60_000 <= dayStart + (x.top + x.height) * 60_000 <= end + 60_000)
            && (end - start < 1_200_000 ==> x.height == 20 || x.top + x.height == 1440)
  {
    var start, end := CutStart(e, dayStart), CutEnd(e, dayEnd);
    Rounded(start - dayStart);
    Rounded(end - start);
  }

  /** Both take up the same minute and a half of the day's 1440 minutes, to the millisecond: 89.999 seconds. */
  ghost predicate ShareTime(a: Event, b: Event, dayStart: int, dayEnd: int) {
    exists t :: SharedFrom(a, b, dayStart, dayEnd, t)
  }

  predicate SharedFrom(a: Event, b: Event, dayStart: int, dayEnd: int, t: int) {
    && CutStart(a, dayStart) <= t && t + 89_999 <= CutEnd(a, dayEnd)
    && CutStart(b, dayStart) <= t && t + 89_999 <= CutEnd(b, dayEnd)
    && t + 89_999 <= dayStart + 86_400_000
  }

  /** Nothing that starts in a minute of an event, with the next half one to spare, starts below its block. */
  lemma BlockReaches(e: Event, dayStart: int, dayEnd: int, t: int, top: int)
    requires dayStart < dayEnd && TouchesDay(e, dayStart, dayEnd)
    requires t + 89_999 <= CutEnd(e, dayEnd) && t + 89_999 <= dayStart + 86_400_000
    requires dayStart + top * 60_000 <= t + 30_000
    ensures top < ItemOf(e, dayStart, dayEnd).top + ItemOf(e, dayStart, dayEnd).height
  {
    var start, end := CutStart(e, dayStart), CutEnd(e, dayEnd);
    Rounded(start - dayStart);
    Rounded(end - start);
  }

  lemma SharingBlocksOverlap(a: Event, b: Event, dayStart: int, dayEnd: int)
    requires dayStart < dayEnd && TouchesDay(a, dayStart, dayEnd) && TouchesDay(b, dayStart, dayEnd)
    requires ShareTime(a, b, dayStart, dayEnd)
    ensures ItemOf(b, dayStart, dayEnd).top < ItemOf(a, dayStart, dayEnd).top + ItemOf(a, dayStart, dayEnd).height
  {
    var t :| SharedFrom(a, b, dayStart, dayEnd, t);
    Rounded(CutStart(b, dayStart) - dayStart);
    BlockReaches(a, dayStart, dayEnd, t, ItemOf(b, dayStart, dayEnd).top);
  }

  /** Two events of the day that share a minute and a half are side by side: in columns of their own, of as many. */
  lemma SharedTimeSideBySide(events: seq<Event>, dayStart: int, dayEnd: int, placed: seq<TimeBlock>, i: nat, j: nat)
    requires dayStart < dayEnd
    requires var items := StableSort(ByTop, ItemsOn(events, dayStart, dayEnd));
             |placed| == |items| && LaidOutUpTo(items, placed, |items|)
    requires i < j < |placed| && ShareTime(placed[i].item.event, placed[j].item.event, dayStart, dayEnd)
    ensures placed[i].columns == placed[j].columns && placed[i].column != placed[j].column
  {
    var items := StableSort(ByTop, ItemsOn(events, dayStart, dayEnd));
    ItemsSorted(events, dayStart, dayEnd);
    ItemsAre(events, dayStart, dayEnd);
    SortMembers(ByTop, ItemsOn(events, dayStart, dayEnd));
    BlockOf(items, placed, i);
    BlockOf(items, placed, j);
    assert items[i] in items && items[j] in items;
    SharingBlocksOverlap(items[i].event, items[j].event, dayStart, dayEnd);
    GridIsCorrect(items, placed, i, j);
  }

  /** A millisecond less is not enough: rounding can part two events that share 89.998 seconds. */
  lemma RoundingParts(a: int, b: int)
    ensures var e, f := Event(a, 29_999, 1_859_998, false), Event(b, 1_770_000, 3_600_000, false);
            && CutEnd(e, 86_400_000) - CutStart(f, 0) == 89_998
            && ShownOn(e, 0, 86_400_000) && ShownOn(f, 0, 86_400_000)
            && ItemOf(f, 0, 86_400_000).top == ItemOf(e, 0, 86_400_000).top + ItemOf(e, 0, 86_400_000).height
  {
  }

  /** The blocks come from the top down, of those at the same minute the tallest first. */
  lemma BlocksInOrder(events: seq<Event>, dayStart: int, dayEnd: int, placed: seq<TimeBlock>, i: nat, j: nat)
    requires dayStart < dayEnd
    requires var items := StableSort(ByTop, ItemsOn(events, dayStart, dayEnd));
             |placed| == |items| && LaidOutUpTo(items, placed, |items|)
    requires i < j < |placed|
    ensures placed[i].item.top <= placed[j].item.top
    ensures placed[i].item.top == placed[j].item.top ==> placed[i].item.height >= placed[j].item.height
  {
    var items := StableSort(ByTop, ItemsOn(events, dayStart, dayEnd));
    SortOrders(ByTop, ItemsOn(events, dayStart, dayEnd));
    BlockOf(items, placed, i);
    BlockOf(items, placed, j);
    assert ByTop(items[i], items[j]);
  }

  // ----- Bars across days -----

  const DAY_MS := 24 * 60 * MINUTE_MS

  /** The local calendar: the instants at which its days begin, and the day each instant falls on. */
  datatype LocalDays = LocalDays(midnight: int -> int, dayOf: int -> int)

  /** From midnight to midnight 24 hours count as a day, give or take less than half a day of clock changes. */
  ghost predicate CountsDays(z: LocalDays, d: int, e: int) {
    -86_400_000 <= 2 * (z.midnight(e) - z.midnight(d) - (e - d) * 86_400_000) < 86_400_000
  }

  /** No day begins before an earlier one; one that a zone skipped is empty. */
  ghost predicate IsCalendar(z: LocalDays) {
    forall d, e :: d <= e ==> z.midnight(d) <= z.midnight(e)
  }

  /** The row begins on its first day, and 24 hours count as a day within it. */
  ghost predicate RowCounts(z: LocalDays, first: int, days: nat) {
    z.dayOf(z.midnight(first)) == first && forall d :: first <= d < first + days ==> CountsDays(z, first, d)
  }

  /** `t` lies between the midnights around the day it falls on, as it does unless a clock went back over one. */
  predicate OnItsDay(z: LocalDays, t: int) {
    z.midnight(z.dayOf(t)) <= t < z.midnight(z.dayOf(t) + 1)
  }

  lemma DayOfOrder(z: LocalDays, t: int, d: int)
    requires IsCalendar(z) && OnItsDay(z, t)
    ensures t < z.midnight(d) <==> z.dayOf(t) < d
  {
    assert z.dayOf(t) + 1 <= d ==> z.midnight(z.dayOf(t) + 1) <= z.midnight(d);
    assert d <= z.dayOf(t) ==> z.midnight(d) <= z.midnight(z.dayOf(t));
  }

  /** `daysBetween`: the distance of the two midnights in days, rounded. */
  function DaysBetween(z: LocalDays, a: int, b: int): int {
    (z.midnight(z.dayOf(b)) - z.midnight(z.dayOf(a)) + DAY_MS / 2) / DAY_MS
  }

  lemma RoundedDays(x: int, n: int)
    ensures (x + DAY_MS / 2) / DAY_MS == n <==> -DAY_MS <= 2 * (x - n * DAY_MS) < DAY_MS
  {
  }

  /** It counts calendar days, whatever their lengths, exactly if the clock changes in between amount to less than
      half a day. */
  lemma DaysBetweenCounts(z: LocalDays, a: int, b: int)
    ensures DaysBetween(z, a, b) == z.dayOf(b) - z.dayOf(a) <==> CountsDays(z, z.dayOf(a), z.dayOf(b))
  {
    var d, e := z.dayOf(a), z.dayOf(b);
    RoundedDays(z.midnight(e) - z.midnight(d), e - d);
  }

  /** A calendar without its day 1, as where the date line moved. */
  function WithoutOneDay(): LocalDays {
    LocalDays(MidnightWithoutOne, DayWithoutOne)
  }

  function MidnightWithoutOne(d: int): int {
    (if d <= 1 then d else d - 1) * DAY_MS
  }

  function DayWithoutOne(t: int): int {
    var d := t / DAY_MS;
    if d < 1 then d else d + 1
  }

  lemma WithoutOneDayIsCalendar()
    ensures IsCalendar(WithoutOneDay())
  {
    var z := WithoutOneDay();
    forall d, e | d <= e
      ensures z.midnight(d) <= z.midnight(e)
    {
      assert MidnightWithoutOne(d) <= MidnightWithoutOne(e);
    }
  }

  lemma DaysAround()
    ensures DayWithoutOne(0) == 0 && DayWithoutOne(DAY_MS) == 2
  {
  }

  /** From day 0 to day 2 is counted as one day. */
  lemma SkippedDayIsNotCounted()
    ensures var z := WithoutOneDay();
            && IsCalendar(z) && z.dayOf(0) == 0 && z.dayOf(DAY_MS) == 2
            && DaysBetween(z, 0, DAY_MS) == 1 && !CountsDays(z, 0, 2)
  {
    WithoutOneDayIsCalendar();
    DaysAround();
    RoundedDays(DAY_MS, 1);
  }

  datatype Candidate = Candidate(event: Event, startColumn: int, endColumn: int, before: bool, after: bool)

  datatype Bar = Bar(candidate: Candidate, lane: nat)

  /** `isSpanning`: all-day, or across a midnight. */
  predicate IsSpanning(e: Event, z: LocalDays) {
    e.isAllDay || z.dayOf(LastInstant(e)) != z.dayOf(e.start)
  }

  /** The event touches the days from `first` up to `end`, exclusive. */
  predicate Touches(e: Event, z: LocalDays, first: int, end: int) {
    e.start < z.midnight(end) && LastInstant(e) >= z.midnight(first)
  }

  predicate OnDay(e: Event, z: LocalDays, d: int) {
    Touches(e, z, d, d + 1)
  }

  predicate InRow(e: Event, z: LocalDays, first: int, days: nat, includeMultiDay: bool) {
    (e.isAllDay || (includeMultiDay && IsSpanning(e, z))) && Touches(e, z, first, first + days)
  }

  function CandidateOf(e: Event, z: LocalDays, first: int, days: nat): Candidate {
    var rowStart, rowEnd := z.midnight(first), z.midnight(first + days);
    Candidate(e, Max(0, DaysBetween(z, rowStart, e.start)), Min(days - 1, DaysBetween(z, rowStart, LastInstant(e))),
              e.start < rowStart, e.end > rowEnd)
  }

  function Candidates(events: seq<Event>, z: LocalDays, first: int, days: nat, includeMultiDay: bool): seq<Candidate> {
    if events == [] then []
    else
      var rest, e := Candidates(events[1..], z, first, days, includeMultiDay), events[0];
      if InRow(e, z, first, days, includeMultiDay) then [CandidateOf(e, z, first, days)] + rest else rest
  }

  /** An event becomes a bar if it has some of its time in the row, or is a point there, and lasts all day or, where
      such events are asked for, from one local day into another. */
  predicate HasBar(e: Event, z: LocalDays, first: int, days: nat, includeMultiDay: bool) {
    && e.start < z.midnight(first + days)
    && (if e.start < e.end then z.midnight(first) < e.end else z.midnight(first) <= e.start)
    && (e.isAllDay
        || (includeMultiDay && z.dayOf(e.start) != z.dayOf(if e.start < e.end then e.end - 1 else e.start)))
  }

  function Barred(z: LocalDays, first: int, days: nat, includeMultiDay: bool): Event -> bool {
    (e: Event) => HasBar(e, z, first, days, includeMultiDay)
  }

  function BarEvents(candidates: seq<Candidate>): seq<Event> {
    if candidates == [] then [] else [candidates[0].event] + BarEvents(candidates[1..])
  }

  /** The bars are those of these events, each once; they tell if the event goes on before or after the row. */
  lemma {:induction false} CandidatesAre(events: seq<Event>, z: LocalDays, first: int, days: nat, includeMultiDay: bool)
    ensures BarEvents(Candidates(events, z, first, days, includeMultiDay))
            == Filter(Barred(z, first, days, includeMultiDay), events)
    ensures forall c :: c in Candidates(events, z, first, days, includeMultiDay) ==>
              && c == CandidateOf(c.event, z, first, days)
              && (c.before <==> c.event.start < z.midnight(first))
              && (c.after <==> c.event.end > z.midnight(first + days))
  {
    if events == [] {
    } else {
      CandidatesAre(events[1..], z, first, days, includeMultiDay);
      assert InRow(events[0], z, first, days, includeMultiDay) <==> HasBar(events[0], z, first, days, includeMultiDay);
      if InRow(events[0], z, first, days, includeMultiDay) {
        var rest := Candidates(events[1..], z, first, days, includeMultiDay);
        assert ([CandidateOf(events[0], z, first, days)] + rest)[1..] == rest;
      }
    }
  }

  /** So without the timed events that cross a midnight, the bars are the all-day events of the row. */
  lemma OnlyAllDayBars(events: seq<Event>, z: LocalDays, first: int, days: nat, c: Candidate)
    requires c in Candidates(events, z, first, days, false)
    ensures c.event.isAllDay && c.event in events
  {
    CandidatesAre(events, z, first, days, false);
    FilterMembers(Barred(z, first, days, false), events);
    BarEventOf(Candidates(events, z, first, days, false), c);
  }

  lemma {:induction false} BarEventOf(candidates: seq<Candidate>, c: Candidate)
    requires c in candidates
    ensures c.event in BarEvents(candidates)
  {
    if candidates[0] == c {
    } else {
      BarEventOf(candidates[1..], c);
    }
  }

  lemma RoundingAscends(x: int, y: int)
    requires x <= y
    ensures (x + DAY_MS / 2) / DAY_MS <= (y + DAY_MS / 2) / DAY_MS
  {
  }

  /** Within the row the distance from its first day is right; before it, it is no column after the first, and beyond
      it none before the last. */
  lemma ColumnOf(z: LocalDays, first: int, days: nat, t: int)
    requires IsCalendar(z) && RowCounts(z, first, days) && days > 0
    ensures var n, d := DaysBetween(z, z.midnight(first), t), z.dayOf(t) - first;
            (0 <= d < days ==> n == d) && (d < 0 ==> n <= 0) && (d >= days ==> n >= days - 1)
  {
    var d, last := z.dayOf(t), first + days - 1;
    if first <= d <= last {
      assert CountsDays(z, first, d);
      DaysBetweenCounts(z, z.midnight(first), t);
    } else if d < first {
      RoundingAscends(z.midnight(d) - z.midnight(first), 0);
    } else {
      assert CountsDays(z, first, last);
      RoundedDays(z.midnight(last) - z.midnight(first), days - 1);
      RoundingAscends(z.midnight(last) - z.midnight(first), z.midnight(d) - z.midnight(first));
    }
  }

  /** `d` is one of the days from the event's first to its last. */
  predicate SpansDay(e: Event, z: LocalDays, d: int) {
    z.dayOf(e.start) <= d <= z.dayOf(LastInstant(e))
  }

  /** The event's first day is not after its last, and between them lies a day of the row. */
  predicate MeetsRow(e: Event, z: LocalDays, first: int, days: nat) {
    && z.dayOf(e.start) <= z.dayOf(LastInstant(e))
    && z.dayOf(e.start) < first + days && first <= z.dayOf(LastInstant(e))
  }

  /** The columns are exactly the days of the row from the event's first to its last. */
  lemma CandidateCoversItsDays(e: Event, z: LocalDays, first: int, days: nat)
    requires IsCalendar(z) && RowCounts(z, first, days) && days > 0 && MeetsRow(e, z, first, days)
    ensures var c := CandidateOf(e, z, first, days);
            && 0 <= c.startColumn <= c.endColumn < days
            && forall d :: first <= d < first + days ==>
                             (c.startColumn <= d - first <= c.endColumn <==> SpansDay(e, z, d))
  {
    ColumnOf(z, first, days, e.start);
    ColumnOf(z, first, days, LastInstant(e));
  }

  /** An event that starts and ends between the midnights of its days meets any row that it touches; the days from its
      first to its last are those it touches. */
  lemma TouchedDays(e: Event, z: LocalDays, first: int, days: nat)
    requires IsCalendar(z) && OnItsDay(z, e.start) && OnItsDay(z, LastInstant(e))
    ensures Touches(e, z, first, first + days) ==> MeetsRow(e, z, first, days)
    ensures forall d :: OnDay(e, z, d) <==> SpansDay(e, z, d)
  {
    DayOfOrder(z, e.start, first + days);
    DayOfOrder(z, LastInstant(e), first);
    DayOfOrder(z, e.start, z.dayOf(LastInstant(e)) + 1);
    forall d: int
      ensures OnDay(e, z, d) <==> SpansDay(e, z, d)
    {
      DayOfOrder(z, e.start, d + 1);
      DayOfOrder(z, LastInstant(e), d);
    }
  }

  /** If the day before the row and the day after it count, too, an instant outside the row has no column in it. */
  lemma NoColumnOf(z: LocalDays, first: int, days: nat, t: int)
    requires IsCalendar(z) && z.dayOf(z.midnight(first)) == first
    requires CountsDays(z, first, first - 1) && CountsDays(z, first, first + days)
    ensures z.dayOf(t) < first ==> DaysBetween(z, z.midnight(first), t) < 0
    ensures z.dayOf(t) >= first + days ==> DaysBetween(z, z.midnight(first), t) >= days
  {
    var d, before, after := z.dayOf(t), first - 1, first + days;
    if d < first {
      RoundedDays(z.midnight(before) - z.midnight(first), -1);
      RoundingAscends(z.midnight(d) - z.midnight(first), z.midnight(before) - z.midnight(first));
    } else if d >= after {
      RoundedDays(z.midnight(after) - z.midnight(first), days);
      RoundingAscends(z.midnight(after) - z.midnight(first), z.midnight(d) - z.midnight(first));
    }
  }

  /** Then a bar ends no earlier than it starts exactly if the event's days meet the row. */
  lemma BarsRunForwardExactly(e: Event, z: LocalDays, first: int, days: nat)
    requires IsCalendar(z) && RowCounts(z, first, days) && days > 0
    requires CountsDays(z, first, first - 1) && CountsDays(z, first, first + days)
    ensures var c := CandidateOf(e, z, first, days); c.startColumn <= c.endColumn <==> MeetsRow(e, z, first, days)
  {
    ColumnOf(z, first, days, e.start);
    ColumnOf(z, first, days, LastInstant(e));
    NoColumnOf(z, first, days, e.start);
    NoColumnOf(z, first, days, LastInstant(e));
  }

  /** A calendar whose clocks go back an hour one minute into day 1: to 23:01 of day 0. */
  function TurnedBack(): LocalDays {
    LocalDays(MidnightTurnedBack, DayTurnedBack)
  }

  function MidnightTurnedBack(d: int): int {
    d * DAY_MS + if d <= 1 then 0 else 60 * MINUTE_MS
  }

  function DayTurnedBack(t: int): int {
    if t < DAY_MS + MINUTE_MS then t / DAY_MS else (t - 60 * MINUTE_MS) / DAY_MS
  }

  /** From half a minute after the first midnight to ten minutes after it. */
  function AroundMidnight(key: int): Event {
    Event(key, DAY_MS + MINUTE_MS / 2, DAY_MS + 10 * MINUTE_MS, false)
  }

  lemma TurnedBackRow(days: nat)
    requires days > 0
    ensures var z := TurnedBack();
            && IsCalendar(z) && RowCounts(z, 1, days) && CountsDays(z, 1, 0) && CountsDays(z, 1, 1 + days)
  {
    var z := TurnedBack();
    forall d, e | d <= e
      ensures z.midnight(d) <= z.midnight(e)
    {
      assert MidnightTurnedBack(d) <= MidnightTurnedBack(e);
    }
    forall d | 0 <= d
      ensures CountsDays(z, 1, d)
    {
      assert MidnightTurnedBack(d) - MidnightTurnedBack(1) == (d - 1) * DAY_MS + if d <= 1 then 0 else 60 * MINUTE_MS;
    }
    assert MidnightTurnedBack(1) == DAY_MS && DayTurnedBack(DAY_MS) == 1;
  }

  lemma AroundMidnightDays(key: int)
    ensures var e := AroundMidnight(key); DayTurnedBack(e.start) == 1 && DayTurnedBack(LastInstant(e)) == 0
  {
  }

  /** It falls from day 1 into day 0, and in any row that begins with day 1 its bar ends before it starts. */
  lemma TurnedBackEventRunsBackward(key: int, days: nat)
    requires days > 0
    ensures var z, e := TurnedBack(), AroundMidnight(key);
            && IsCalendar(z) && RowCounts(z, 1, days) && InRow(e, z, 1, days, true)
            && !OnItsDay(z, LastInstant(e)) && !MeetsRow(e, z, 1, days)
            && CandidateOf(e, z, 1, days).startColumn > CandidateOf(e, z, 1, days).endColumn
  {
    var z, e := TurnedBack(), AroundMidnight(key);
    TurnedBackRow(days);
    AroundMidnightDays(key);
    BarsRunForwardExactly(e, z, 1, days);
    assert MidnightTurnedBack(1) == DAY_MS && MidnightTurnedBack(1 + days) >= 2 * DAY_MS;
  }

  /** All events of the row meet it. */
  ghost predicate AllMeetRow(events: seq<Event>, z: LocalDays, first: int, days: nat, includeMultiDay: bool) {
    forall i :: 0 <= i < |events| && InRow(events[i], z, first, days, includeMultiDay) ==>
      MeetsRow(events[i], z, first, days)
  }

  lemma {:induction false} CandidatesFit(events: seq<Event>, z: LocalDays, first: int, days: nat, includeMultiDay: bool)
    requires IsCalendar(z) && RowCounts(z, first, days) && days > 0
    requires AllMeetRow(events, z, first, days, includeMultiDay)
    ensures forall c :: c in Candidates(events, z, first, days, includeMultiDay) ==> c.startColumn <= c.endColumn
  {
    if events == [] {
    } else {
      assert forall i :: 0 <= i < |events[1..]| ==> events[1..][i] == events[i + 1];
      CandidatesFit(events[1..], z, first, days, includeMultiDay);
      if InRow(events[0], z, first, days, includeMultiDay) {
        CandidateCoversItsDays(events[0], z, first, days);
      }
    }
  }

  predicate LongestFirst(a: Candidate, b: Candidate) {
    a.startColumn < b.startColumn
    || (a.startColumn == b.startColumn && a.endColumn - a.startColumn >= b.endColumn - b.startColumn)
  }

  function BarSpan(c: Candidate): Span {
    Span(c.startColumn, c.endColumn + 1)
  }

  /** `findIndex` over the lanes: the first whose last bar ends on an earlier day. */
  function FirstLane(laneEnds: seq<int>, startColumn: int, from: nat := 0): (lane: nat)
    requires from <= |laneEnds|
    ensures from <= lane <= |laneEnds|
    decreases |laneEnds| - from
  {
    if from == |laneEnds| || laneEnds[from] < startColumn then from else FirstLane(laneEnds, startColumn, from + 1)
  }

  lemma {:induction false} LaneIsFirstFree(laneEnds: seq<int>, ends: seq<int>, start: int, from: nat)
    requires from <= |laneEnds| == |ends| && forall i :: 0 <= i < |ends| ==> ends[i] == laneEnds[i] + 1
    ensures FirstLane(laneEnds, start, from) == FirstFree(ends, start, from)
    decreases |laneEnds| - from
  {
    if from == |laneEnds| || laneEnds[from] < start {
    } else {
      LaneIsFirstFree(laneEnds, ends, start, from + 1);
    }
  }

  /** Bars over sorted candidates: each candidate once, no two bars of a lane on the same day,
      and as many lanes as bars ever share a day. */
  ghost predicate BarsCorrect(candidates: seq<Candidate>, bars: seq<Bar>, lanes: nat) {
    && |bars| == |candidates|
    && (forall i :: 0 <= i < |bars| ==> bars[i].candidate == candidates[i] && bars[i].lane < lanes)
    && exists spans, columns :: BarColours(bars, spans, columns) && Proper(spans, columns) && LargestCrowd(spans, lanes)
  }

  /** The bars as spans of days and their lanes. */
  ghost predicate BarColours(bars: seq<Bar>, spans: seq<Span>, columns: seq<nat>) {
    && |spans| == |columns| == |bars|
    && forall i :: 0 <= i < |bars| ==> spans[i] == BarSpan(bars[i].candidate) && columns[i] == bars[i].lane
  }

  /** The state of the loop over the candidates; `ends` are the lanes' ends, exclusive. */
  ghost predicate Laying(candidates: seq<Candidate>, n: nat, bars: seq<Bar>, laneEnds: seq<int>) {
    exists spans, columns, ends, last, crowd, at ::
      LayingWith(candidates, n, bars, laneEnds, spans, columns, ends, last, crowd, at)
  }

  ghost predicate LayingWith(candidates: seq<Candidate>, n: nat, bars: seq<Bar>, laneEnds: seq<int>,
                             spans: seq<Span>, columns: seq<nat>, ends: seq<int>, last: seq<nat>,
                             crowd: seq<nat>, at: int) {
    && n <= |candidates| && |bars| == n
    && (forall i :: 0 <= i < n ==> bars[i].candidate == candidates[i] && bars[i].lane < |laneEnds|)
    && BarColours(bars, spans, columns)
    && |ends| == |laneEnds| && (forall i :: 0 <= i < |ends| ==> ends[i] == laneEnds[i] + 1)
    && Colouring(spans, columns, ends, last, crowd, at)
  }

  ghost predicate Row(candidates: seq<Candidate>) {
    && (forall i :: 0 <= i < |candidates| ==> candidates[i].startColumn <= candidates[i].endColumn)
    && (forall i, j :: 0 <= i < j < |candidates| ==> candidates[i].startColumn <= candidates[j].startColumn)
  }

  lemma LayStep(candidates: seq<Candidate>, n: nat, bars: seq<Bar>, laneEnds: seq<int>)
    requires Laying(candidates, n, bars, laneEnds) && n < |candidates| && Row(candidates)
    ensures var c := candidates[n];
            var lane := FirstLane(laneEnds, c.startColumn);
            Laying(candidates, n + 1, bars + [Bar(c, lane)], Occupied(laneEnds, lane, c.endColumn))
  {
    var spans: seq<Span>, columns: seq<nat>, ends: seq<int>, last: seq<nat>, crowd: seq<nat>, at: int :|
      LayingWith(candidates, n, bars, laneEnds, spans, columns, ends, last, crowd, at);
    var c := candidates[n];
    var lane, x := FirstLane(laneEnds, c.startColumn), BarSpan(c);
    LaneIsFirstFree(laneEnds, ends, x.start, 0);
    assert spans != [] ==> spans[0] == BarSpan(candidates[0]);
    assert forall i :: 0 <= i < |spans| ==> spans[i].start == candidates[i].startColumn;
    var last', crowd', at' := ColouringStep(spans, columns, ends, last, crowd, at, x);
    assert LayingWith(candidates, n + 1, bars + [Bar(c, lane)], Occupied(laneEnds, lane, c.endColumn),
                      spans + [x], columns + [lane], Occupied(ends, lane, x.end), last', crowd', at');
  }

  lemma LaidBars(candidates: seq<Candidate>, bars: seq<Bar>, laneEnds: seq<int>)
    requires Laying(candidates, |candidates|, bars, laneEnds) && Row(candidates)
    ensures BarsCorrect(candidates, bars, |laneEnds|)
  {
    var spans: seq<Span>, columns: seq<nat>, ends: seq<int>, last: seq<nat>, crowd: seq<nat>, at: int :|
      LayingWith(candidates, |candidates|, bars, laneEnds, spans, columns, ends, last, crowd, at);
    assert spans != [] ==> spans[0] == BarSpan(candidates[0]);
    assert Crowd(spans, crowd, at) && |crowd| == |laneEnds|;
    forall other, p | Crowd(spans, other, p)
      ensures |other| <= |laneEnds|
    {
      CrowdNeedsColumns(spans, columns, |laneEnds|, other, p);
    }
  }

  method PlaceBars(candidates: seq<Candidate>) returns (bars: seq<Bar>, lanes: nat)
    requires Row(candidates)
    ensures BarsCorrect(candidates, bars, lanes)
  {
    var laneEnds: seq<int> := [];
    bars := [];
    assert LayingWith(candidates, 0, bars, laneEnds, [], [], [], [], [], 0);
    for n := 0 to |candidates|
      invariant Laying(candidates, n, bars, laneEnds)
    {
      var candidate := candidates[n];
      var lane := FirstLane(laneEnds, candidate.startColumn);
      LayStep(candidates, n, bars, laneEnds);
      laneEnds := Occupied(laneEnds, lane, candidate.endColumn);
      bars := bars + [Bar(candidate, lane)];
    }
    LaidBars(candidates, bars, laneEnds);
    lanes := |laneEnds|;
  }

  /** The bars come from the first column on, of those in one column the longest first. */
  lemma BarsInOrder(candidates: seq<Candidate>, i: nat, j: nat)
    requires i < j < |candidates|
    ensures |StableSort(LongestFirst, candidates)| == |candidates|
    ensures var a, b := StableSort(LongestFirst, candidates)[i], StableSort(LongestFirst, candidates)[j];
            a.startColumn <= b.startColumn && (a.startColumn == b.startColumn ==> a.endColumn >= b.endColumn)
  {
    SortElements(LongestFirst, candidates);
    SortOrders(LongestFirst, candidates);
    assert LongestFirst(StableSort(LongestFirst, candidates)[i], StableSort(LongestFirst, candidates)[j]);
  }

  /** The row is that of `days` consecutive days from `first`. */
  method LayoutBars(events: seq<Event>, z: LocalDays, first: int, days: nat, includeMultiDay: bool)
      returns (bars: seq<Bar>, lanes: nat)
    requires days > 0 ==>
               IsCalendar(z) && RowCounts(z, first, days) && AllMeetRow(events, z, first, days, includeMultiDay)
    ensures days == 0 ==> bars == [] && lanes == 0
    ensures days > 0 ==>
              BarsCorrect(StableSort(LongestFirst, Candidates(events, z, first, days, includeMultiDay)), bars, lanes)
  {
    if days == 0 {
      return [], 0;
    }
    var candidates := Candidates(events, z, first, days, includeMultiDay);
    CandidatesFit(events, z, first, days, includeMultiDay);
    var sorted := StableSort(LongestFirst, candidates);
    SortOrders(LongestFirst, candidates);
    SortMembers(LongestFirst, candidates);
    assert Row(sorted) by {
      assert forall i :: 0 <= i < |sorted| ==> sorted[i] in candidates;
      assert forall i, j :: 0 <= i < j < |sorted| ==> LongestFirst(sorted[i], sorted[j]);
    }
    bars, lanes := PlaceBars(sorted);
  }
}
