/** The in-process store of Digest nonces (packages/core/src/auth/digest-nonce-store.ts).

    The store is an insertion-ordered JavaScript map with eviction and sweeping. It is
    compared with a ledger that never forgets a nonce: over any history with a monotone
    clock and fresh nonces, the store is a suffix of the ledger, and forgetting the rest
    never changes which requests are accepted or called replays. */
module DigestNonceStore {

  datatype Entry = Entry(nonce: string, expiresAt: int, highestNc: int)

  datatype Validation = Valid | Stale | Replay | Unknown

  /** The numeric `nc` of a request; a JavaScript number need not be an integer. */
  datatype NonceCount = NotAnInteger | Count(value: int)

  datatype Options = Options(ttlMs: int, staleGraceMs: nat, maxEntries: int)

  const MAX_SAFE_INTEGER: int := 0x1F_FFFF_FFFF_FFFF

  predicate IsSafeInteger(nc: NonceCount) {
    nc.Count? && -MAX_SAFE_INTEGER <= nc.value <= MAX_SAFE_INTEGER
  }

  // ----- The insertion-ordered map -----

  function IndexOf(entries: seq<Entry>, nonce: string): (i: int)
    ensures -1 <= i < |entries|
    ensures i >= 0 ==> entries[i].nonce == nonce
    ensures i < 0 ==> forall j :: 0 <= j < |entries| ==> entries[j].nonce != nonce
  {
    IndexFrom(entries, nonce, 0)
  }

  function IndexFrom(entries: seq<Entry>, nonce: string, from: nat): (i: int)
    requires from <= |entries|
    ensures i == -1 || from <= i < |entries|
    ensures i >= 0 ==> entries[i].nonce == nonce
    ensures i < 0 ==> forall j :: from <= j < |entries| ==> entries[j].nonce != nonce
    decreases |entries| - from
  {
    if from == |entries| then -1
    else if entries[from].nonce == nonce then from
    else IndexFrom(entries, nonce, from + 1)
  }

  ghost predicate DistinctNonces(entries: seq<Entry>) {
    forall i, j :: 0 <= i < j < |entries| ==> entries[i].nonce != entries[j].nonce
  }

  /** `Map.set`: a known key keeps its place in the iteration order. */
  function MapSet(entries: seq<Entry>, entry: Entry): seq<Entry> {
    var i := IndexOf(entries, entry.nonce);
    if i < 0 then entries + [entry] else entries[i := entry]
  }

  /** Oldest entries go first, until the cap holds or nothing is left. */
  function Evict(entries: seq<Entry>, maxEntries: int): seq<Entry> {
    if |entries| > maxEntries && entries != [] then Evict(entries[1..], maxEntries) else entries
  }

  function Unswept(entries: seq<Entry>, cutoff: int): seq<Entry> {
    if entries == [] then []
    else
      var rest := Unswept(entries[..|entries| - 1], cutoff);
      var last := entries[|entries| - 1];
      if last.expiresAt <= cutoff then rest else rest + [last]
  }

  function Issued(entries: seq<Entry>, nonce: string, now: int, o: Options): seq<Entry> {
    Evict(MapSet(entries, Entry(nonce, now + o.ttlMs, 0)), o.maxEntries)
  }

  function Answer(entries: seq<Entry>, nonce: string, nc: NonceCount, now: int): Validation {
    var i := IndexOf(entries, nonce);
    if i < 0 then Unknown
    else if now >= entries[i].expiresAt then Stale
    else if !IsSafeInteger(nc) || nc.value <= entries[i].highestNc then Replay
    else Valid
  }

  function Consumed(entries: seq<Entry>, nonce: string, nc: NonceCount, now: int): seq<Entry> {
    if Answer(entries, nonce, nc, now) == Valid then
      var i := IndexOf(entries, nonce);
      entries[i := entries[i].(highestNc := nc.value)]
    else entries
  }

  class Store {
    var entries: seq<Entry>
    const options: Options

    constructor (options: Options)
      ensures this.options == options && entries == []
    {
      this.options := options;
      entries := [];
    }

    /** The fresh nonce, 128 random bits, is an argument. */
    method GenerateNonce(nonce: string, now: int)
      modifies this
      ensures entries == Issued(old(entries), nonce, now, options)
      ensures old(DistinctNonces(entries)) ==> DistinctNonces(entries)
    {
      entries := MapSet(entries, Entry(nonce, now + options.ttlMs, 0));
      ghost var full := entries;
      while |entries| > options.maxEntries
        invariant Evict(entries, options.maxEntries) == Evict(full, options.maxEntries)
        invariant old(DistinctNonces(entries)) ==> DistinctNonces(entries)
        decreases |entries|
      {
        if entries == [] {
          break;
        }
        entries := entries[1..];
      }
    }

    method ValidateAndConsumeNonce(nonce: string, nc: NonceCount, now: int) returns (answer: Validation)
      modifies this
      ensures answer == Answer(old(entries), nonce, nc, now)
      ensures entries == Consumed(old(entries), nonce, nc, now)
    {
      var i := IndexOf(entries, nonce);
      if i < 0 {
        return Unknown;
      }
      if now >= entries[i].expiresAt {
        return Stale;
      }
      if !IsSafeInteger(nc) || nc.value <= entries[i].highestNc {
        return Replay;
      }
      entries := entries[i := entries[i].(highestNc := nc.value)];
      return Valid;
    }

    method Sweep(now: int) returns (removed: nat)
      modifies this
      ensures entries == Unswept(old(entries), now - options.staleGraceMs)
      ensures removed == |old(entries)| - |entries|
    {
      var cutoff := now - options.staleGraceMs;
      var all := entries;
      var kept := [];
      removed := 0;
      for i := 0 to |all|
        invariant entries == all
        invariant kept == Unswept(all[..i], cutoff)
        invariant removed == i - |kept|
      {
        assert all[..i + 1][..i] == all[..i];
        if all[i].expiresAt <= cutoff {
          removed := removed + 1;
        } else {
          kept := kept + [all[i]];
        }
      }
      assert all[..|all|] == all;
      entries := kept;
    }
  }

  // ----- Histories -----

  datatype Event =
    | Issue(at: int, nonce: string)
    | Request(at: int, nonce: string, nc: NonceCount)
    | Sweeping(at: int)

  function Apply(entries: seq<Entry>, e: Event, o: Options): seq<Entry> {
    match e
    case Issue(at, nonce) => Issued(entries, nonce, at, o)
    case Request(at, nonce, nc) => Consumed(entries, nonce, nc, at)
    case Sweeping(at) => Unswept(entries, at - o.staleGraceMs)
  }

  /** What the store holds after `history`. */
  function Run(history: seq<Event>, o: Options): seq<Entry> {
    if history == [] then []
    else Apply(Run(Before(history), o), Last(history), o)
  }

  function Before(history: seq<Event>): seq<Event>
    requires history != []
  {
    history[..|history| - 1]
  }

  function Last(history: seq<Event>): Event
    requires history != []
  {
    history[|history| - 1]
  }

  /** How the store answers a request that follows `history`. */
  function StoreAnswer(history: seq<Event>, e: Event, o: Options): Validation
    requires e.Request?
  {
    Answer(Run(history, o), e.nonce, e.nc, e.at)
  }

  // ----- The reference: a ledger that never forgets -----

  /** By the ledger, a nonce is known while fewer than `maxEntries` others were issued after it. */
  function LedgerAnswer(ledger: seq<Entry>, nonce: string, nc: NonceCount, now: int, o: Options): Validation {
    var i := IndexOf(ledger, nonce);
    if i < 0 || |ledger| - i > o.maxEntries then Unknown
    else Answer(ledger, nonce, nc, now)
  }

  function Ledger(history: seq<Event>, o: Options): seq<Entry> {
    if history == [] then []
    else Recorded(Ledger(Before(history), o), Last(history), o)
  }

  function Recorded(ledger: seq<Entry>, e: Event, o: Options): seq<Entry> {
    match e
    case Issue(at, nonce) => ledger + [Entry(nonce, at + o.ttlMs, 0)]
    case Request(at, nonce, nc) =>
      if LedgerAnswer(ledger, nonce, nc, at, o) == Valid then Consumed(ledger, nonce, nc, at) else ledger
    case Sweeping(_) => ledger
  }

  /** How the ledger answers a request that follows `history`: sweeps play no part in it. */
  function Expected(history: seq<Event>, e: Event, o: Options): Validation
    requires e.Request?
  {
    LedgerAnswer(Ledger(history, o), e.nonce, e.nc, e.at, o)
  }

  /** The clock never runs backwards and no nonce is drawn twice. */
  ghost predicate Legal(history: seq<Event>) {
    && (forall i, j :: 0 <= i < j < |history| ==> history[i].at <= history[j].at)
    && (forall i, j :: 0 <= i < j < |history| && history[i].Issue? && history[j].Issue? ==>
          history[i].nonce != history[j].nonce)
  }

  // ----- Lemmas on the ordered map -----

  lemma IndexOfIs(entries: seq<Entry>, i: nat)
    requires i < |entries| && DistinctNonces(entries)
    ensures IndexOf(entries, entries[i].nonce) == i
  {
    var k := IndexOf(entries, entries[i].nonce);
    assert k >= 0 && entries[k].nonce == entries[i].nonce;
    if k < i {
    } else if i < k {
    }
  }

  /** `part` is the newest part of `whole`. */
  ghost predicate IsSuffix(part: seq<Entry>, whole: seq<Entry>) {
    && |part| <= |whole|
    && forall i :: 0 <= i < |part| ==> part[i] == whole[|whole| - |part| + i]
  }

  lemma {:induction false} EvictIsSuffix(entries: seq<Entry>, maxEntries: int)
    ensures var kept := Evict(entries, maxEntries);
            && IsSuffix(kept, entries)
            && (|kept| < |entries| ==> |kept| >= maxEntries)
            && (kept == [] || |kept| <= maxEntries)
  {
    if |entries| <= maxEntries || entries == [] {
    } else {
      EvictIsSuffix(entries[1..], maxEntries);
    }
  }

  ghost predicate ByExpiry(entries: seq<Entry>) {
    forall i, j :: 0 <= i < j < |entries| ==> entries[i].expiresAt <= entries[j].expiresAt
  }

  lemma {:induction false} UnsweptOfSorted(entries: seq<Entry>, cutoff: int)
    requires ByExpiry(entries)
    ensures var kept := Unswept(entries, cutoff);
            && IsSuffix(kept, entries)
            && (forall i :: 0 <= i < |entries| - |kept| ==> entries[i].expiresAt <= cutoff)
            && (forall i :: 0 <= i < |kept| ==> kept[i].expiresAt > cutoff)
  {
    if entries == [] {
    } else {
      var n := |entries| - 1;
      if entries[n].expiresAt <= cutoff {
        assert forall i :: 0 <= i < n ==> entries[i].expiresAt <= entries[n].expiresAt;
        AllExpired(entries, cutoff);
      } else {
        var front := entries[..n];
        var kept := Unswept(front, cutoff);
        UnsweptOfSorted(front, cutoff);
        AppendToSuffix(kept, entries);
        assert Unswept(entries, cutoff) == kept + [entries[n]];
        forall i | 0 <= i < |front| - |kept|
          ensures entries[i].expiresAt <= cutoff
        {
          assert front[i] == entries[i];
        }
      }
    }
  }

  lemma AppendToSuffix(part: seq<Entry>, whole: seq<Entry>)
    requires whole != [] && IsSuffix(part, whole[..|whole| - 1])
    ensures IsSuffix(part + [whole[|whole| - 1]], whole)
  {
  }

  lemma {:induction false} AllExpired(entries: seq<Entry>, cutoff: int)
    requires forall i :: 0 <= i < |entries| ==> entries[i].expiresAt <= cutoff
    ensures Unswept(entries, cutoff) == []
  {
    if entries == [] {
    } else {
      AllExpired(entries[..|entries| - 1], cutoff);
    }
  }

  // ----- The ledger over a history -----

  /** Entry `i` of the ledger records event `k` of the history. */
  ghost predicate Records(entry: Entry, e: Event, o: Options) {
    e == Issue(entry.expiresAt - o.ttlMs, entry.nonce)
  }

  lemma RecordedKeeps(ledger: seq<Entry>, e: Event, o: Options)
    ensures |Recorded(ledger, e, o)| == |ledger| + (if e.Issue? then 1 else 0)
    ensures forall i :: 0 <= i < |ledger| ==>
              && Recorded(ledger, e, o)[i].nonce == ledger[i].nonce
              && Recorded(ledger, e, o)[i].expiresAt == ledger[i].expiresAt
              && Recorded(ledger, e, o)[i].highestNc >= ledger[i].highestNc
  {
  }

  /** Every ledger entry was issued in the history. */
  lemma {:induction false} LedgerEntryIssued(history: seq<Event>, i: nat, o: Options) returns (k: nat)
    requires i < |Ledger(history, o)|
    ensures k < |history| && Records(Ledger(history, o)[i], history[k], o)
    ensures i == |Ledger(history[..k], o)|
  {
    var past := Before(history);
    RecordedKeeps(Ledger(past, o), Last(history), o);
    if i < |Ledger(past, o)| {
      k := LedgerEntryIssued(past, i, o);
      assert past[..k] == history[..k];
    } else {
      k := |past|;
    }
  }

  /** What every legal history keeps: one entry per nonce issued, in order of expiry. */
  lemma {:induction false} LedgerShape(history: seq<Event>, o: Options)
    requires Legal(history)
    ensures DistinctNonces(Ledger(history, o)) && ByExpiry(Ledger(history, o))
  {
    if history == [] {
    } else {
      var past, e := Before(history), Last(history);
      LegalPrefix(history, |history| - 1);
      LedgerShape(past, o);
      var before := Ledger(past, o);
      RecordedKeeps(before, e, o);
      if e.Issue? {
        forall i | 0 <= i < |before|
          ensures before[i].nonce != e.nonce && before[i].expiresAt <= e.at + o.ttlMs
        {
          var k := LedgerEntryIssued(past, i, o);
          assert history[k] == past[k] && history[|past|] == e;
        }
      }
    }
  }

  /** The store is always the newest part of the ledger; whatever it lacks was evicted by
      the cap, or had expired at least the grace period before the last event. */
  ghost predicate HoldsSuffix(entries: seq<Entry>, ledger: seq<Entry>, now: int, o: Options) {
    && IsSuffix(entries, ledger)
    && (entries == [] || |entries| <= o.maxEntries)
    && forall i :: 0 <= i < |ledger| - |entries| && |ledger| - i <= o.maxEntries ==>
         ledger[i].expiresAt <= now - o.staleGraceMs
  }

  lemma IndexInSuffix(entries: seq<Entry>, ledger: seq<Entry>, nonce: string)
    requires DistinctNonces(ledger) && IsSuffix(entries, ledger)
    ensures var i, d := IndexOf(ledger, nonce), |ledger| - |entries|;
            IndexOf(entries, nonce) == if i >= d then i - d else -1
  {
    var d, k := |ledger| - |entries|, IndexOf(entries, nonce);
    if k >= 0 {
      IndexOfIs(ledger, d + k);
    } else {
      forall j | d <= j < |ledger|
        ensures ledger[j].nonce != nonce
      {
        assert ledger[j] == entries[j - d];
      }
    }
  }

  lemma SuffixAnswers(entries: seq<Entry>, ledger: seq<Entry>, last: int, nonce: string, nc: NonceCount, now: int,
                      o: Options)
    requires DistinctNonces(ledger) && last <= now
    requires HoldsSuffix(entries, ledger, last, o)
    ensures var expected := LedgerAnswer(ledger, nonce, nc, now, o);
            var answer := Answer(entries, nonce, nc, now);
            answer == expected || (expected == Stale && answer == Unknown)
  {
    IndexInSuffix(entries, ledger, nonce);
  }

  lemma UpdateInSuffix(entries: seq<Entry>, ledger: seq<Entry>, i: nat, entry: Entry)
    requires IsSuffix(entries, ledger) && |ledger| - |entries| <= i < |ledger|
    ensures IsSuffix(entries[i - (|ledger| - |entries|) := entry], ledger[i := entry])
  {
  }

  /** Accepting a request leaves the same record in the store and in the ledger. */
  lemma SuffixConsumes(entries: seq<Entry>, ledger: seq<Entry>, last: int, nonce: string, nc: NonceCount, now: int,
                       o: Options)
    requires DistinctNonces(ledger) && last <= now
    requires HoldsSuffix(entries, ledger, last, o)
    ensures IsSuffix(Consumed(entries, nonce, nc, now), Recorded(ledger, Request(now, nonce, nc), o))
  {
    SuffixAnswers(entries, ledger, last, nonce, nc, now, o);
    IndexInSuffix(entries, ledger, nonce);
    if Answer(entries, nonce, nc, now) == Valid {
      var i := IndexOf(ledger, nonce);
      UpdateInSuffix(entries, ledger, i, ledger[i].(highestNc := nc.value));
    }
  }

  lemma RequestKeepsSuffix(entries: seq<Entry>, ledger: seq<Entry>, last: int, nonce: string, nc: NonceCount, now: int,
                           o: Options)
    requires DistinctNonces(ledger) && last <= now
    requires HoldsSuffix(entries, ledger, last, o)
    ensures HoldsSuffix(Consumed(entries, nonce, nc, now), Recorded(ledger, Request(now, nonce, nc), o), now, o)
  {
    SuffixConsumes(entries, ledger, last, nonce, nc, now, o);
    RecordedKeeps(ledger, Request(now, nonce, nc), o);
  }

  /** The invariant of every run. */
  lemma {:induction false} StoreIsLedgerSuffix(history: seq<Event>, o: Options)
    requires Legal(history)
    ensures history == [] ==> Run(history, o) == Ledger(history, o) == []
    ensures history != [] ==> HoldsSuffix(Run(history, o), Ledger(history, o), Last(history).at, o)
  {
    if history == [] {
    } else {
      var past, e := Before(history), Last(history);
      LegalPrefix(history, |history| - 1);
      StoreIsLedgerSuffix(past, o);
      LedgerShape(past, o);
      LedgerShape(history, o);
      var last := if past == [] then e.at else Last(past).at;
      assert past != [] ==> history[|past| - 1].at <= history[|past|].at;
      StepKeepsSuffix(Run(past, o), Ledger(past, o), last, e, o);
    }
  }

  lemma StepKeepsSuffix(entries: seq<Entry>, ledger: seq<Entry>, last: int, e: Event, o: Options)
    requires last <= e.at && HoldsSuffix(entries, ledger, last, o)
    requires DistinctNonces(ledger) && ByExpiry(ledger) && DistinctNonces(Recorded(ledger, e, o))
    ensures HoldsSuffix(Apply(entries, e, o), Recorded(ledger, e, o), e.at, o)
  {
    match e
    case Issue(at, nonce) =>
      IssueKeepsSuffix(entries, ledger, last, nonce, at, o);
    case Request(at, nonce, nc) =>
      RequestKeepsSuffix(entries, ledger, last, nonce, nc, at, o);
    case Sweeping(at) =>
      SweepKeepsSuffix(entries, ledger, last, at, o);
  }

  /** Issuing a nonce the ledger has not seen appends it, and evicts from the front. */
  lemma FreshIssueAppends(entries: seq<Entry>, ledger: seq<Entry>, nonce: string, at: int, o: Options)
    requires IsSuffix(entries, ledger)
    requires DistinctNonces(Recorded(ledger, Issue(at, nonce), o))
    ensures var grown := entries + [Entry(nonce, at + o.ttlMs, 0)];
            && MapSet(entries, Entry(nonce, at + o.ttlMs, 0)) == grown
            && IsSuffix(grown, Recorded(ledger, Issue(at, nonce), o))
  {
    var next, d := Recorded(ledger, Issue(at, nonce), o), |ledger| - |entries|;
    assert next[|ledger|].nonce == nonce;
    forall i | 0 <= i < |entries|
      ensures entries[i].nonce != nonce
    {
      assert next[d + i] == entries[i];
    }
  }

  lemma IssueKeepsSuffix(entries: seq<Entry>, ledger: seq<Entry>, last: int, nonce: string, at: int, o: Options)
    requires last <= at && HoldsSuffix(entries, ledger, last, o)
    requires DistinctNonces(Recorded(ledger, Issue(at, nonce), o))
    ensures HoldsSuffix(Issued(entries, nonce, at, o), Recorded(ledger, Issue(at, nonce), o), at, o)
  {
    FreshIssueAppends(entries, ledger, nonce, at, o);
    var grown, next := entries + [Entry(nonce, at + o.ttlMs, 0)], Recorded(ledger, Issue(at, nonce), o);
    assert |next| - |grown| == |ledger| - |entries|;
    forall i | 0 <= i < |next| - |grown| && |next| - i <= o.maxEntries
      ensures next[i].expiresAt <= at - o.staleGraceMs
    {
      assert next[i] == ledger[i];
    }
    EvictedHoldsSuffix(grown, next, at, o);
  }

  /** Eviction keeps a suffix, and drops nothing but what is over the cap. */
  lemma EvictedHoldsSuffix(grown: seq<Entry>, next: seq<Entry>, at: int, o: Options)
    requires IsSuffix(grown, next)
    requires forall i :: 0 <= i < |next| - |grown| && |next| - i <= o.maxEntries ==>
               next[i].expiresAt <= at - o.staleGraceMs
    ensures HoldsSuffix(Evict(grown, o.maxEntries), next, at, o)
  {
    EvictIsSuffix(grown, o.maxEntries);
    SuffixTrans(Evict(grown, o.maxEntries), grown, next);
  }

  lemma SuffixTrans(a: seq<Entry>, b: seq<Entry>, c: seq<Entry>)
    requires IsSuffix(a, b) && IsSuffix(b, c)
    ensures IsSuffix(a, c)
  {
  }

  lemma SweepKeepsSuffix(entries: seq<Entry>, ledger: seq<Entry>, last: int, at: int, o: Options)
    requires last <= at && HoldsSuffix(entries, ledger, last, o) && ByExpiry(ledger)
    ensures HoldsSuffix(Unswept(entries, at - o.staleGraceMs), ledger, at, o)
  {
    var d, cutoff := |ledger| - |entries|, at - o.staleGraceMs;
    assert forall i :: 0 <= i < |entries| ==> entries[i] == ledger[d + i];
    UnsweptOfSorted(entries, cutoff);
    var kept := Unswept(entries, cutoff);
    SuffixTrans(kept, entries, ledger);
    forall i | 0 <= i < |ledger| - |kept| && |ledger| - i <= o.maxEntries
      ensures ledger[i].expiresAt <= cutoff
    {
      if i >= d {
        assert ledger[i] == entries[i - d];
      }
    }
  }

  /** In every legal history, with any sweeps in it, the store accepts and calls replays exactly the
      requests the ledger does; it may only have forgotten a nonce that had already expired. */
  lemma AnswersAsExpected(history: seq<Event>, e: Event, o: Options)
    requires e.Request? && Legal(history + [e])
    ensures StoreAnswer(history, e, o) == Expected(history, e, o)
            || (Expected(history, e, o) == Stale && StoreAnswer(history, e, o) == Unknown)
  {
    LegalPrefix(history + [e], |history|);
    StoreIsLedgerSuffix(history, o);
    LedgerShape(history, o);
    if history != [] {
      assert (history + [e])[|history| - 1] == Last(history) && (history + [e])[|history|] == e;
      SuffixAnswers(Run(history, o), Ledger(history, o), Last(history).at, e.nonce, e.nc, e.at, o);
    }
  }

  lemma LegalPrefix(history: seq<Event>, n: nat)
    requires Legal(history) && n <= |history|
    ensures Legal(history[..n])
  {
  }

  // ----- Sweeping is unobservable but for stale nonces -----

  function WithoutSweeps(history: seq<Event>): seq<Event> {
    if history == [] then []
    else if Last(history).Sweeping? then WithoutSweeps(Before(history))
    else WithoutSweeps(Before(history)) + [Last(history)]
  }

  lemma {:induction false} WithoutSweepsSameLedger(history: seq<Event>, o: Options)
    ensures Ledger(WithoutSweeps(history), o) == Ledger(history, o)
  {
    if history == [] {
    } else {
      WithoutSweepsSameLedger(Before(history), o);
      var rest := WithoutSweeps(Before(history));
      assert !Last(history).Sweeping? ==> Before(WithoutSweeps(history)) == rest;
    }
  }

  lemma LegalAppend(history: seq<Event>, e: Event)
    requires Legal(history)
    requires forall x :: x in history ==> x.at <= e.at && (x.Issue? && e.Issue? ==> x.nonce != e.nonce)
    ensures Legal(history + [e])
  {
    forall i | 0 <= i < |history|
      ensures history[i].at <= e.at && (history[i].Issue? && e.Issue? ==> history[i].nonce != e.nonce)
    {
      assert history[i] in history;
    }
  }

  lemma {:induction false} WithoutSweepsLegal(history: seq<Event>)
    requires Legal(history)
    ensures Legal(WithoutSweeps(history))
    ensures forall e :: e in WithoutSweeps(history) ==> e in history && !e.Sweeping?
  {
    if history == [] {
    } else {
      LegalPrefix(history, |history| - 1);
      var past, e := Before(history), Last(history);
      WithoutSweepsLegal(past);
      var kept := WithoutSweeps(past);
      forall x | x in kept
        ensures x in history && x.at <= e.at && (x.Issue? && e.Issue? ==> x.nonce != e.nonce)
      {
        var i :| 0 <= i < |past| && past[i] == x;
        assert history[i] == x && history[|history| - 1] == e;
      }
      LegalAppend(kept, e);
    }
  }

  /** What the store has dropped was evicted: there are the cap's worth of newer nonces. */
  ghost predicate DropsOnlyEvicted(entries: seq<Entry>, ledger: seq<Entry>, o: Options) {
    && IsSuffix(entries, ledger)
    && (|entries| < |ledger| ==> |entries| >= o.maxEntries)
  }

  /** Without a sweep in the history not even a stale nonce is mistaken for an unknown one. */
  lemma {:induction false} SweepFreeDropsOnlyEvicted(history: seq<Event>, o: Options)
    requires Legal(history) && forall e :: e in history ==> !e.Sweeping?
    ensures DropsOnlyEvicted(Run(history, o), Ledger(history, o), o)
  {
    if history == [] {
    } else {
      var past, e := Before(history), Last(history);
      LegalPrefix(history, |history| - 1);
      SweepFreeDropsOnlyEvicted(past, o);
      StoreIsLedgerSuffix(past, o);
      LedgerShape(past, o);
      LedgerShape(history, o);
      assert history[|past|] == e;
      var last := if past == [] then e.at else Last(past).at;
      assert past != [] ==> history[|past| - 1].at <= history[|past|].at;
      SweepFreeStep(Run(past, o), Ledger(past, o), last, e, o);
    }
  }

  lemma EvictedDropsOnly(grown: seq<Entry>, next: seq<Entry>, dropped: nat, o: Options)
    requires IsSuffix(grown, next) && |next| - |grown| == dropped
    requires dropped > 0 ==> |grown| > o.maxEntries
    ensures DropsOnlyEvicted(Evict(grown, o.maxEntries), next, o)
  {
    EvictIsSuffix(grown, o.maxEntries);
    SuffixTrans(Evict(grown, o.maxEntries), grown, next);
  }

  lemma SweepFreeIssue(entries: seq<Entry>, ledger: seq<Entry>, nonce: string, at: int, o: Options)
    requires DropsOnlyEvicted(entries, ledger, o) && DistinctNonces(Recorded(ledger, Issue(at, nonce), o))
    ensures DropsOnlyEvicted(Issued(entries, nonce, at, o), Recorded(ledger, Issue(at, nonce), o), o)
  {
    FreshIssueAppends(entries, ledger, nonce, at, o);
    var grown := entries + [Entry(nonce, at + o.ttlMs, 0)];
    EvictedDropsOnly(grown, Recorded(ledger, Issue(at, nonce), o), |ledger| - |entries|, o);
  }

  lemma SameSize(entries: seq<Entry>, ledger: seq<Entry>, nonce: string, nc: NonceCount, now: int, o: Options)
    ensures |Consumed(entries, nonce, nc, now)| == |entries|
    ensures |Recorded(ledger, Request(now, nonce, nc), o)| == |ledger|
  {
  }

  lemma SweepFreeStep(entries: seq<Entry>, ledger: seq<Entry>, last: int, e: Event, o: Options)
    requires last <= e.at && !e.Sweeping? && HoldsSuffix(entries, ledger, last, o)
    requires DropsOnlyEvicted(entries, ledger, o)
    requires DistinctNonces(ledger) && DistinctNonces(Recorded(ledger, e, o))
    ensures DropsOnlyEvicted(Apply(entries, e, o), Recorded(ledger, e, o), o)
  {
    match e
    case Issue(at, nonce) =>
      SweepFreeIssue(entries, ledger, nonce, at, o);
    case Request(at, nonce, nc) =>
      SuffixConsumes(entries, ledger, last, nonce, nc, at, o);
      SameSize(entries, ledger, nonce, nc, at, o);
  }

  /** The store that is never swept answers exactly as the ledger. */
  lemma UnsweptAnswersExactly(entries: seq<Entry>, ledger: seq<Entry>, nonce: string, nc: NonceCount, now: int,
                              o: Options)
    requires DistinctNonces(ledger) && DropsOnlyEvicted(entries, ledger, o)
    requires Answer(entries, nonce, nc, now) == Unknown
    ensures LedgerAnswer(ledger, nonce, nc, now, o) == Unknown
  {
    IndexInSuffix(entries, ledger, nonce);
  }

  /** The sweeping store against the one that is never swept: the same requests are valid, the
      same are replays, and a request whose answer differs is stale to one and unknown to the other. */
  lemma SweepingIsBisimilar(history: seq<Event>, e: Event, o: Options)
    requires e.Request? && Legal(history + [e])
    ensures var swept := StoreAnswer(history, e, o);
            var unswept := StoreAnswer(WithoutSweeps(history), e, o);
            && (swept == Valid <==> unswept == Valid)
            && (swept == Replay <==> unswept == Replay)
            && (swept != unswept ==> unswept == Stale && swept == Unknown)
  {
    var whole, calm := history + [e], WithoutSweeps(history);
    assert Before(whole) == history && Last(whole) == e;
    WithoutSweepsLegal(whole);
    assert WithoutSweeps(whole) == calm + [e];
    AnswersAsExpected(history, e, o);
    AnswersAsExpected(calm, e, o);
    WithoutSweepsSameLedger(history, o);
    assert (calm + [e])[..|calm|] == calm && whole[..|history|] == history;
    LegalPrefix(whole, |history|);
    LegalPrefix(calm + [e], |calm|);
    WithoutSweepsLegal(history);
    SweepFreeDropsOnlyEvicted(calm, o);
    LedgerShape(calm, o);
    if StoreAnswer(calm, e, o) == Unknown {
      UnsweptAnswersExactly(Run(calm, o), Ledger(calm, o), e.nonce, e.nc, e.at, o);
    }
  }

  // ----- Replay safety over runs -----

  /** An accepted count is remembered for as long as the nonce can be accepted at all. */
  lemma {:induction false} HighestNcGrows(history: seq<Event>, n: nat, i: nat, o: Options)
    requires n <= |history| && i < |Ledger(history[..n], o)|
    ensures i < |Ledger(history, o)|
    ensures Ledger(history, o)[i].nonce == Ledger(history[..n], o)[i].nonce
    ensures Ledger(history, o)[i].highestNc >= Ledger(history[..n], o)[i].highestNc
    decreases |history| - n
  {
    if n == |history| {
      assert history[..n] == history;
    } else {
      assert Before(history[..n + 1]) == history[..n];
      HighestNcGrows(history, n + 1, i, o);
    }
  }

  /** By the ledger alone: what it accepts it records, and accepts only what exceeds the record. */
  lemma LedgerAcceptsOnce(history: seq<Event>, n: nat, e: Event, next: Event, o: Options)
    requires n < |history| && Legal(history) && history[n] == e && e.Request? && next.Request? && e.nonce == next.nonce
    requires Expected(history[..n], e, o) == Valid && Expected(history, next, o) == Valid
    ensures e.nc.value < next.nc.value
  {
    var past, upTo := history[..n], history[..n + 1];
    assert Before(upTo) == past && Last(upTo) == e;
    var k := IndexOf(Ledger(past, o), e.nonce);
    assert Ledger(upTo, o) == Consumed(Ledger(past, o), e.nonce, e.nc, e.at);
    HighestNcGrows(history, n + 1, k, o);
    LedgerShape(history, o);
    IndexOfIs(Ledger(history, o), k);
  }

  /** For one nonce the accepted counts strictly increase, so no `(nonce, nc)` is accepted twice. */
  lemma AcceptedCountsIncrease(history: seq<Event>, i: nat, j: nat, o: Options)
    requires Legal(history) && i < j < |history|
    requires history[i].Request? && history[j].Request? && history[i].nonce == history[j].nonce
    requires StoreAnswer(history[..i], history[i], o) == Valid
    requires StoreAnswer(history[..j], history[j], o) == Valid
    ensures history[i].nc.value < history[j].nc.value
  {
    ValidAsExpected(history, i, o);
    ValidAsExpected(history, j, o);
    LegalPrefix(history, j);
    assert history[..j][..i] == history[..i] && history[..j][i] == history[i];
    LedgerAcceptsOnce(history[..j], i, history[i], history[j], o);
  }

  lemma ValidAsExpected(history: seq<Event>, i: nat, o: Options)
    requires Legal(history) && i < |history| && history[i].Request?
    requires StoreAnswer(history[..i], history[i], o) == Valid
    ensures Expected(history[..i], history[i], o) == Valid
  {
    assert history[..i] + [history[i]] == history[..i + 1];
    LegalPrefix(history, i + 1);
    AnswersAsExpected(history[..i], history[i], o);
  }

  /** A request is accepted only for a nonce issued earlier in the history, before the nonce
      expires and while no more than the cap's worth of nonces were issued, it included. */
  lemma AcceptedOnlyWhileLive(history: seq<Event>, e: Event, o: Options)
    requires e.Request? && Legal(history + [e])
    requires StoreAnswer(history, e, o) == Valid
    ensures exists k :: && 0 <= k < |history|
                        && history[k].Issue? && history[k].nonce == e.nonce
                        && e.at < history[k].at + o.ttlMs
                        && IssuesIn(history[k..]) <= o.maxEntries
  {
    AnswersAsExpected(history, e, o);
    var i := IndexOf(Ledger(history, o), e.nonce);
    var k := LedgerEntryIssued(history, i, o);
    LedgerCounts(history, k, o);
  }

  function IssuesIn(history: seq<Event>): nat {
    if history == [] then 0
    else IssuesIn(Before(history)) + (if Last(history).Issue? then 1 else 0)
  }

  lemma {:induction false} LedgerCounts(history: seq<Event>, k: nat, o: Options)
    requires k <= |history|
    ensures |Ledger(history, o)| == |Ledger(history[..k], o)| + IssuesIn(history[k..])
  {
    if k == |history| {
      assert history[..k] == history;
    } else {
      LedgerCounts(Before(history), k, o);
      assert Before(history)[..k] == history[..k];
      assert Before(history[k..]) == Before(history)[k..];
    }
  }

  /** The cap holds after every event of a history, and what one more issue evicts
      expires no later than anything that stays. */
  lemma EvictsEarliestExpiring(history: seq<Event>, nonce: string, at: int, o: Options)
    requires Legal(history + [Issue(at, nonce)])
    ensures |Run(history, o)| <= if o.maxEntries > 0 then o.maxEntries else 0
    ensures var grown := Run(history, o) + [Entry(nonce, at + o.ttlMs, 0)];
            var kept := Run(history + [Issue(at, nonce)], o);
            && IsSuffix(kept, grown)
            && |kept| <= (if o.maxEntries > 0 then o.maxEntries else 0)
            && forall i, j :: 0 <= i < |grown| - |kept| && 0 <= j < |kept| ==> grown[i].expiresAt <= kept[j].expiresAt
  {
    var e := Issue(at, nonce);
    var whole := history + [e];
    LegalPrefix(whole, |history|);
    assert whole[..|history|] == history && Before(whole) == history && Last(whole) == e;
    StoreIsLedgerSuffix(history, o);
    LedgerShape(whole, o);
    IssueEvictsOldest(Run(history, o), Ledger(history, o), nonce, at, o);
  }

  lemma IssueEvictsOldest(entries: seq<Entry>, ledger: seq<Entry>, nonce: string, at: int, o: Options)
    requires IsSuffix(entries, ledger)
    requires DistinctNonces(Recorded(ledger, Issue(at, nonce), o)) && ByExpiry(Recorded(ledger, Issue(at, nonce), o))
    ensures var grown := entries + [Entry(nonce, at + o.ttlMs, 0)];
            var kept := Issued(entries, nonce, at, o);
            && IsSuffix(kept, grown)
            && |kept| <= (if o.maxEntries > 0 then o.maxEntries else 0)
            && ByExpiry(grown)
  {
    FreshIssueAppends(entries, ledger, nonce, at, o);
    var grown := entries + [Entry(nonce, at + o.ttlMs, 0)];
    EvictIsSuffix(grown, o.maxEntries);
    var next, d := Recorded(ledger, Issue(at, nonce), o), |ledger| - |entries|;
    assert forall i :: 0 <= i < |grown| ==> grown[i] == next[d + i];
  }

  // ----- Which requests get which answer, told by the history -----

  /** Event `k` issued the nonce. */
  ghost predicate IssuedBy(history: seq<Event>, k: nat, nonce: string) {
    k < |history| && history[k].Issue? && history[k].nonce == nonce
  }

  /** Event `j` is a request with the nonce that was accepted. */
  ghost predicate AcceptedBy(history: seq<Event>, j: nat, nonce: string, o: Options) {
    && j < |history| && history[j].Request? && history[j].nonce == nonce
    && StoreAnswer(history[..j], history[j], o) == Valid
  }

  /** A sweep after event `k` came a grace period after the nonce issued by it expired. */
  ghost predicate SweptSince(history: seq<Event>, k: nat, o: Options) {
    exists j :: k < j < |history| && history[j].Sweeping?
                && history[k].at + o.ttlMs + o.staleGraceMs <= history[j].at
  }

  /** Fewer than the cap were issued after it. */
  ghost predicate WithinCap(history: seq<Event>, k: nat, o: Options)
    requires k < |history|
  {
    IssuesIn(history[k + 1..]) < o.maxEntries
  }

  /** It may still be used at `now`. */
  ghost predicate Live(history: seq<Event>, k: nat, nonce: string, now: int, o: Options) {
    IssuedBy(history, k, nonce) && WithinCap(history, k, o) && now < history[k].at + o.ttlMs
  }

  /** A whole number above zero that JavaScript can count up to, and above every one accepted before. */
  ghost predicate CountsUp(history: seq<Event>, e: Event, o: Options)
    requires e.Request?
  {
    && e.nc.Count? && 0 < e.nc.value <= 9_007_199_254_740_991
    && forall j: nat :: AcceptedBy(history, j, e.nonce, o) ==> history[j].nc.value < e.nc.value
  }

  lemma IssuesAfter(history: seq<Event>, k: nat)
    requires k < |history| && history[k].Issue?
    ensures IssuesIn(history[k..]) == 1 + IssuesIn(history[k + 1..])
  {
    IssuesConcat([history[k]], history[k + 1..]);
    assert history[k..] == [history[k]] + history[k + 1..];
    assert Before([history[k]]) == [];
  }

  lemma {:induction false} IssuesConcat(a: seq<Event>, b: seq<Event>)
    ensures IssuesIn(a + b) == IssuesIn(a) + IssuesIn(b)
  {
    if b == [] {
      assert a + b == a;
    } else {
      IssuesConcat(a, Before(b));
      assert Before(a + b) == a + Before(b) && Last(a + b) == Last(b);
    }
  }

  /** The ledger's entry of the nonce issued by event `k`. */
  function EntryNumber(history: seq<Event>, k: nat, o: Options): nat
    requires k <= |history|
  {
    |Ledger(history[..k], o)|
  }

  lemma {:induction false} EntryOf(history: seq<Event>, k: nat, o: Options)
    requires k < |history| && history[k].Issue?
    ensures var i := EntryNumber(history, k, o);
            && i < |Ledger(history, o)| && Records(Ledger(history, o)[i], history[k], o)
            && |Ledger(history, o)| - i == 1 + IssuesIn(history[k + 1..])
  {
    var i, upTo := EntryNumber(history, k, o), history[..k + 1];
    assert Before(upTo) == history[..k] && Last(upTo) == history[k];
    EntryStays(history, k + 1, i, o);
    LedgerCounts(history, k, o);
    IssuesAfter(history, k);
  }

  lemma {:induction false} EntryStays(history: seq<Event>, n: nat, i: nat, o: Options)
    requires n <= |history| && i < |Ledger(history[..n], o)|
    ensures i < |Ledger(history, o)|
    ensures Ledger(history, o)[i].nonce == Ledger(history[..n], o)[i].nonce
    ensures Ledger(history, o)[i].expiresAt == Ledger(history[..n], o)[i].expiresAt
  {
    if n == |history| {
      assert history[..n] == history;
    } else {
      assert Before(history)[..n] == history[..n];
      EntryStays(Before(history), n, i, o);
      RecordedKeeps(Ledger(Before(history), o), Last(history), o);
    }
  }

  /** The ledger's index of a nonce is that of its only issue. */
  lemma IndexOfIssue(history: seq<Event>, k: nat, nonce: string, o: Options)
    requires Legal(history) && IssuedBy(history, k, nonce)
    ensures IndexOf(Ledger(history, o), nonce) == EntryNumber(history, k, o)
  {
    EntryOf(history, k, o);
    LedgerShape(history, o);
    IndexOfIs(Ledger(history, o), EntryNumber(history, k, o));
  }

  lemma NeverIssued(history: seq<Event>, nonce: string, o: Options)
    requires forall k: nat :: !IssuedBy(history, k, nonce)
    ensures IndexOf(Ledger(history, o), nonce) < 0
  {
    var i := IndexOf(Ledger(history, o), nonce);
    if i >= 0 {
      var k := LedgerEntryIssued(history, i, o);
      assert IssuedBy(history, k, nonce);
    }
  }

  /** The record of a nonce is the highest count accepted for it, or zero. */
  ghost predicate HighestAccepted(history: seq<Event>, nonce: string, highest: int, o: Options) {
    && highest >= 0
    && (forall j: nat :: AcceptedBy(history, j, nonce, o) ==> history[j].nc.value <= highest)
    && (highest == 0 || exists j: nat :: AcceptedBy(history, j, nonce, o) && history[j].nc.value == highest)
  }

  lemma AcceptedInPrefix(history: seq<Event>, e: Event, nonce: string, o: Options)
    ensures forall j: nat :: j < |history| ==>
              (AcceptedBy(history + [e], j, nonce, o) <==> AcceptedBy(history, j, nonce, o))
    ensures AcceptedBy(history + [e], |history|, nonce, o)
            <==> e.Request? && e.nonce == nonce && StoreAnswer(history, e, o) == Valid
  {
    assert (history + [e])[..|history|] == history;
    forall j: nat | j < |history|
      ensures AcceptedBy(history + [e], j, nonce, o) <==> AcceptedBy(history, j, nonce, o)
    {
      assert (history + [e])[..j] == history[..j];
    }
  }

  lemma HighestAfter(history: seq<Event>, e: Event, nonce: string, highest: int, o: Options)
    requires HighestAccepted(history, nonce, highest, o)
    requires e.Request? && e.nonce == nonce && StoreAnswer(history, e, o) == Valid && e.nc.value > highest
    ensures HighestAccepted(history + [e], nonce, e.nc.value, o)
  {
    AcceptedInPrefix(history, e, nonce, o);
    assert AcceptedBy(history + [e], |history|, nonce, o);
  }

  lemma HighestStays(history: seq<Event>, e: Event, nonce: string, highest: int, o: Options)
    requires HighestAccepted(history, nonce, highest, o)
    requires !(e.Request? && e.nonce == nonce && StoreAnswer(history, e, o) == Valid)
    ensures HighestAccepted(history + [e], nonce, highest, o)
  {
    var longer := history + [e];
    AcceptedInPrefix(history, e, nonce, o);
    forall j: nat | AcceptedBy(longer, j, nonce, o)
      ensures longer[j].nc.value <= highest
    {
      assert AcceptedBy(history, j, nonce, o);
    }
    if highest != 0 {
      var j: nat :| AcceptedBy(history, j, nonce, o) && history[j].nc.value == highest;
      assert AcceptedBy(longer, j, nonce, o) && longer[j] == history[j];
    }
  }

  /** Nothing is accepted for a nonce that was never issued. */
  lemma NoneAccepted(history: seq<Event>, nonce: string, o: Options)
    requires Legal(history) && forall k: nat :: !IssuedBy(history, k, nonce)
    ensures HighestAccepted(history, nonce, 0, o)
  {
    forall j: nat | AcceptedBy(history, j, nonce, o)
      ensures false
    {
      ValidAsExpected(history, j, o);
      assert forall k: nat :: IssuedBy(history[..j], k, nonce) ==> IssuedBy(history, k, nonce);
      NeverIssued(history[..j], nonce, o);
    }
  }

  lemma LedgerStep(history: seq<Event>, i: nat, o: Options)
    requires history != [] && Legal(history) && i < |Ledger(Before(history), o)|
    ensures i < |Ledger(history, o)|
    ensures var entry, e := Ledger(Before(history), o)[i], Last(history);
            var hit := e.Request? && e.nonce == entry.nonce && StoreAnswer(Before(history), e, o) == Valid;
            && Ledger(history, o)[i].nonce == entry.nonce
            && Ledger(history, o)[i].highestNc == (if hit then e.nc.value else entry.highestNc)
            && (hit ==> e.nc.value > entry.highestNc)
  {
    var past, e := Before(history), Last(history);
    LegalPrefix(history, |past|);
    LedgerShape(past, o);
    IndexOfIs(Ledger(past, o), i);
    if e.Request? {
      assert past + [e] == history;
      AnswersAsExpected(past, e, o);
    }
  }

  lemma {:induction false} LedgerNotesHighest(history: seq<Event>, i: nat, o: Options)
    requires Legal(history) && i < |Ledger(history, o)|
    ensures HighestAccepted(history, Ledger(history, o)[i].nonce, Ledger(history, o)[i].highestNc, o)
  {
    if history == [] {
    } else {
      var past, e := Before(history), Last(history);
      assert past + [e] == history;
      LegalPrefix(history, |past|);
      if i < |Ledger(past, o)| {
        var entry := Ledger(past, o)[i];
        LedgerNotesHighest(past, i, o);
        LedgerStep(history, i, o);
        if e.Request? && e.nonce == entry.nonce && StoreAnswer(past, e, o) == Valid {
          HighestAfter(past, e, entry.nonce, entry.highestNc, o);
        } else {
          HighestStays(past, e, entry.nonce, entry.highestNc, o);
        }
      } else {
        FirstNote(history, o);
      }
    }
  }

  lemma FirstNote(history: seq<Event>, o: Options)
    requires history != [] && Legal(history) && Last(history).Issue?
    ensures HighestAccepted(history, Last(history).nonce, 0, o)
  {
    var past, e := Before(history), Last(history);
    assert past + [e] == history;
    LegalPrefix(history, |past|);
    assert history[|past|] == e;
    forall k: nat | k < |past|
      ensures !IssuedBy(past, k, e.nonce)
    {
      assert past[k] == history[k];
    }
    NoneAccepted(past, e.nonce, o);
    HighestStays(past, e, e.nonce, 0, o);
  }

  /** What the ledger expects of a nonce that event `k` issued. */
  lemma ExpectedOf(history: seq<Event>, e: Event, k: nat, o: Options)
    requires e.Request? && Legal(history) && IssuedBy(history, k, e.nonce)
    ensures Expected(history, e, o) ==
            if !WithinCap(history, k, o) then Unknown
            else if e.at >= history[k].at + o.ttlMs then Stale
            else if CountsUp(history, e, o) then Valid
            else Replay
  {
    EntryOf(history, k, o);
    IndexOfIssue(history, k, e.nonce, o);
    LedgerNotesHighest(history, EntryNumber(history, k, o), o);
  }

  /** Expired, not evicted and not swept. */
  ghost predicate Remembered(history: seq<Event>, k: nat, nonce: string, now: int, o: Options) {
    && IssuedBy(history, k, nonce) && WithinCap(history, k, o) && !SweptSince(history, k, o)
    && now >= history[k].at + o.ttlMs
  }

  lemma AnswerOf(history: seq<Event>, e: Event, k: nat, o: Options)
    requires e.Request? && Legal(history + [e]) && IssuedBy(history, k, e.nonce)
    ensures StoreAnswer(history, e, o) == Valid <==> Live(history, k, e.nonce, e.at, o) && CountsUp(history, e, o)
    ensures StoreAnswer(history, e, o) == Replay <==> Live(history, k, e.nonce, e.at, o) && !CountsUp(history, e, o)
    ensures StoreAnswer(history, e, o) == Stale <==> Remembered(history, k, e.nonce, e.at, o)
  {
    LegalPrefix(history + [e], |history|);
    assert (history + [e])[..|history|] == history;
    AnswersAsExpected(history, e, o);
    ExpectedOf(history, e, k, o);
    HeldExactly(history, e, k, o);
  }

  /** Every answer of the store, told by the history. Of a nonce issued earlier, with fewer than the cap's worth issued
      since, a request is valid before it expires exactly if its count goes up, and a replay if not; later it is stale,
      until a sweep comes that is the grace period later still. Anything else is unknown. */
  lemma AnswersAre(history: seq<Event>, e: Event, o: Options)
    requires e.Request? && Legal(history + [e])
    ensures StoreAnswer(history, e, o) == Valid
            <==> (exists k: nat :: Live(history, k, e.nonce, e.at, o)) && CountsUp(history, e, o)
    ensures StoreAnswer(history, e, o) == Replay
            <==> (exists k: nat :: Live(history, k, e.nonce, e.at, o)) && !CountsUp(history, e, o)
    ensures StoreAnswer(history, e, o) == Stale <==> exists k: nat :: Remembered(history, k, e.nonce, e.at, o)
  {
    if k: nat :| IssuedBy(history, k, e.nonce) {
      LegalPrefix(history + [e], |history|);
      assert (history + [e])[..|history|] == history;
      OnlyIssue(history, k, e.nonce);
      AnswerOf(history, e, k, o);
      assert forall l: nat :: Live(history, l, e.nonce, e.at, o) ==> l == k;
      assert forall l: nat :: Remembered(history, l, e.nonce, e.at, o) ==> l == k;
    } else {
      LegalPrefix(history + [e], |history|);
      assert (history + [e])[..|history|] == history;
      AnswersAsExpected(history, e, o);
      NeverIssued(history, e.nonce, o);
    }
  }

  lemma OnlyIssue(history: seq<Event>, k: nat, nonce: string)
    requires Legal(history) && IssuedBy(history, k, nonce)
    ensures forall l: nat :: IssuedBy(history, l, nonce) ==> l == k
  {
  }

  // ----- What a sweep forgets -----

  /** Entry `i` of the ledger is still held. */
  ghost predicate Holds(entries: seq<Entry>, ledger: seq<Entry>, i: int) {
    |ledger| - |entries| <= i
  }

  lemma HeldExactly(history: seq<Event>, e: Event, k: nat, o: Options)
    requires e.Request? && Legal(history + [e]) && IssuedBy(history, k, e.nonce)
    ensures StoreAnswer(history, e, o) == Unknown <==> !WithinCap(history, k, o) || SweptSince(history, k, o)
  {
    var i := EntryNumber(history, k, o);
    LegalPrefix(history + [e], |history|);
    assert (history + [e])[..|history|] == history;
    StoreIsLedgerSuffix(history, o);
    LedgerShape(history, o);
    EntryOf(history, k, o);
    IndexOfIssue(history, k, e.nonce, o);
    HeldUnlessSwept(history, k, o);
    IndexInSuffix(Run(history, o), Ledger(history, o), e.nonce);
  }

  /** A nonce is held as long as it is within the cap and no sweep took it. */
  lemma {:induction false} HeldUnlessSwept(history: seq<Event>, k: nat, o: Options)
    requires Legal(history) && k < |history| && history[k].Issue?
    ensures Holds(Run(history, o), Ledger(history, o), EntryNumber(history, k, o))
            <==> WithinCap(history, k, o) && !SweptSince(history, k, o)
  {
    var past := Before(history);
    LegalPrefix(history, |past|);
    if k < |past| {
      HeldUnlessSwept(past, k, o);
      assert past[..k] == history[..k];
      HeldStep(history, k, o);
      CapStep(history, k, o);
      SweptStep(history, k, o);
    } else {
      assert past == history[..k] && history[k + 1..] == [];
      HeldAtFirst(history, o);
    }
  }

  lemma CapStep(history: seq<Event>, k: nat, o: Options)
    requires history != [] && k < |history| - 1
    ensures IssuesIn(history[k + 1..]) == IssuesIn(Before(history)[k + 1..]) + (if Last(history).Issue? then 1 else 0)
  {
    assert Before(history[k + 1..]) == Before(history)[k + 1..] && Last(history[k + 1..]) == Last(history);
  }

  /** What an event does to an entry that was there before it. */
  lemma HeldAfter(entries: seq<Entry>, ledger: seq<Entry>, e: Event, i: nat, o: Options)
    requires IsSuffix(entries, ledger) && ByExpiry(ledger) && DistinctNonces(Recorded(ledger, e, o)) && i < |ledger|
    ensures Holds(Apply(entries, e, o), Recorded(ledger, e, o), i) <==>
              && Holds(entries, ledger, i)
              && (e.Issue? ==> |ledger| + 1 - i <= o.maxEntries)
              && (e.Sweeping? ==> ledger[i].expiresAt > e.at - o.staleGraceMs)
  {
    match e
    case Issue(at, nonce) => HeldAfterIssue(entries, ledger, nonce, at, i, o);
    case Request(at, nonce, nc) => SameSize(entries, ledger, nonce, nc, at, o);
    case Sweeping(at) => HeldAfterSweep(entries, ledger, at - o.staleGraceMs, i);
  }

  lemma HeldStep(history: seq<Event>, k: nat, o: Options)
    requires Legal(history) && history != [] && k < |history| - 1 && history[k].Issue?
    ensures var past, e, i := Before(history), Last(history), EntryNumber(history, k, o);
            Holds(Run(history, o), Ledger(history, o), i) <==>
              && Holds(Run(past, o), Ledger(past, o), i)
              && (e.Issue? ==> 2 + IssuesIn(past[k + 1..]) <= o.maxEntries)
              && (e.Sweeping? ==> history[k].at + o.ttlMs > e.at - o.staleGraceMs)
  {
    var past := Before(history);
    LegalPrefix(history, |past|);
    assert past[..k] == history[..k] && past[k] == history[k];
    LastSuffix(past, o);
    LedgerShape(past, o);
    LedgerShape(history, o);
    EntryOf(past, k, o);
    HeldAfter(Run(past, o), Ledger(past, o), Last(history), EntryNumber(history, k, o), o);
  }

  lemma LastSuffix(history: seq<Event>, o: Options)
    requires Legal(history)
    ensures IsSuffix(Run(history, o), Ledger(history, o))
  {
    StoreIsLedgerSuffix(history, o);
  }

  /** An issue's own nonce is held if the cap allows any. */
  lemma HeldAtFirst(history: seq<Event>, o: Options)
    requires Legal(history) && history != [] && Last(history).Issue?
    ensures var i := |Ledger(Before(history), o)|;
            Holds(Run(history, o), Ledger(history, o), i) <==> 0 < o.maxEntries
  {
    var past, e := Before(history), Last(history);
    LegalPrefix(history, |past|);
    LastSuffix(past, o);
    LedgerShape(history, o);
    HeldAfterIssue(Run(past, o), Ledger(past, o), e.nonce, e.at, |Ledger(past, o)|, o);
  }

  lemma SweptStep(history: seq<Event>, k: nat, o: Options)
    requires history != [] && k < |history| - 1
    ensures SweptSince(history, k, o) <==>
              || SweptSince(Before(history), k, o)
              || (Last(history).Sweeping? && history[k].at + o.ttlMs + o.staleGraceMs <= Last(history).at)
  {
    var past := Before(history);
    if j :| k < j < |past| && past[j].Sweeping? && past[k].at + o.ttlMs + o.staleGraceMs <= past[j].at {
      assert history[j].Sweeping? && history[k].at + o.ttlMs + o.staleGraceMs <= history[j].at;
    }
    if j :| k < j < |history| && history[j].Sweeping? && history[k].at + o.ttlMs + o.staleGraceMs <= history[j].at {
      assert j < |past| ==> past[j].Sweeping? && past[k].at + o.ttlMs + o.staleGraceMs <= past[j].at;
    }
    if Last(history).Sweeping? && history[k].at + o.ttlMs + o.staleGraceMs <= Last(history).at {
      assert history[|past|].Sweeping?;
    }
  }

  lemma HeldAfterIssue(entries: seq<Entry>, ledger: seq<Entry>, nonce: string, at: int, i: nat, o: Options)
    requires IsSuffix(entries, ledger) && DistinctNonces(Recorded(ledger, Issue(at, nonce), o)) && i <= |ledger|
    ensures Holds(Issued(entries, nonce, at, o), Recorded(ledger, Issue(at, nonce), o), i)
            <==> |ledger| + 1 - i <= o.maxEntries && Holds(entries, ledger, i)
  {
    FreshIssueAppends(entries, ledger, nonce, at, o);
    EvictIsSuffix(entries + [Entry(nonce, at + o.ttlMs, 0)], o.maxEntries);
  }

  lemma HeldAfterSweep(entries: seq<Entry>, ledger: seq<Entry>, cutoff: int, i: nat)
    requires IsSuffix(entries, ledger) && ByExpiry(ledger) && i < |ledger|
    ensures Holds(Unswept(entries, cutoff), ledger, i) <==> Holds(entries, ledger, i) && ledger[i].expiresAt > cutoff
  {
    var d := |ledger| - |entries|;
    assert forall j :: 0 <= j < |entries| ==> entries[j] == ledger[d + j];
    UnsweptOfSorted(entries, cutoff);
    var kept := Unswept(entries, cutoff);
    if d <= i {
      assert entries[i - d] == ledger[i];
      assert i - d >= |entries| - |kept| ==> kept[i - d - (|entries| - |kept|)] == entries[i - d];
    }
  }
}
