/** Writing calendar objects (packages/core/src/caldav/calendar-object-writes.ts), their change log
    (calendar-change.service.ts) and the quota counters (packages/core/src/quota/apply-quota-delta.ts).

    Every save and delete is one transaction that commits as a whole or leaves no trace. Writers work from
    rows they read at any earlier time, so a run of such transactions is any interleaving of the writers. */
module CalendarStore {
  import opened Wrappers

  datatype Result<T> = Success(value: T) | Failure(error: Error)

  datatype QuotaLevel = UserQuota | TenantQuota

  datatype Error =
    | UidConflict(conflictingName: string)
    | ObjectChanged(name: string)
    | QuotaExceeded(level: QuotaLevel)
    | UniqueViolation
    | NotFound
    | NothingToDelete

  // ----- The tables -----

  /** What the write path takes from the parsed text: its UID, kind and time-range index columns. */
  datatype Parsed = Parsed(uid: string, componentType: string, index: string)

  datatype Row = Row(calendarId: nat, tenantId: nat, name: string, uid: string, owner: nat,
                     etag: string, componentType: string, index: string)

  datatype Calendar = Calendar(syncSeq: nat, tenantId: nat)

  datatype Action = Added | Modified | Deleted

  datatype Change = Change(calendarId: nat, seqNo: nat, name: string, action: Action)

  datatype Account = Account(used: int, limit: Option<int>)

  /** Users are keyed by their principal. New ids are drawn from a counter: an id is never used twice. */
  datatype Tables = Tables(
    objects: map<nat, Row>, contents: map<nat, string>, nextId: nat,
    calendars: map<nat, Calendar>, changes: seq<Change>,
    users: map<nat, Account>, tenants: map<nat, Account>)

  /** A row as a writer read it, which may have changed or gone since. */
  datatype Snapshot = Snapshot(id: nat, row: Row)

  datatype SaveInput = SaveInput(tenantId: nat, calendarId: nat, name: string, owner: nat, ics: string, parsed: Parsed,
                                 etag: string, existing: Option<Snapshot>, expectedEtag: Option<string>)

  datatype DeleteInput = DeleteInput(calendarId: nat, target: Snapshot, expectedEtag: Option<string>)

  datatype Saved = Saved(created: bool, id: nat)

  /** UTF-8 length. */
  function ByteLength(text: string): nat {
    if text == [] then 0
    else
      var c := text[0] as int;
      (if c < 0x80 then 1 else if c < 0x800 then 2 else if c < 0x1_0000 then 3 else 4) + ByteLength(text[1..])
  }

  /** The bytes of a character (section 3 of RFC 3629). */
  function Utf8(c: char): seq<int> {
    var x := c as int;
    if x < 0x80 then [x]
    else if x < 0x800 then [0xC0 + x / 0x40, 0x80 + x % 0x40]
    else if x < 0x1_0000 then [0xE0 + x / 0x1000, 0x80 + x / 0x40 % 0x40, 0x80 + x % 0x40]
    else [0xF0 + x / 0x4_0000, 0x80 + x / 0x1000 % 0x40, 0x80 + x / 0x40 % 0x40, 0x80 + x % 0x40]
  }

  /** What the leading byte and those that continue it stand for. */
  function CodePoint(bytes: seq<int>): int {
    if |bytes| == 1 then bytes[0]
    else if |bytes| == 2 then (bytes[0] - 0xC0) * 0x40 + bytes[1] - 0x80
    else if |bytes| == 3 then (bytes[0] - 0xE0) * 0x1000 + (bytes[1] - 0x80) * 0x40 + bytes[2] - 0x80
    else if |bytes| == 4 then
      (bytes[0] - 0xF0) * 0x4_0000 + (bytes[1] - 0x80) * 0x1000 + (bytes[2] - 0x80) * 0x40 + bytes[3] - 0x80
    else -1
  }

  /** Bytes, of which the first tells how many there are, that can be read back. */
  lemma Utf8ReadsBack(c: char)
    ensures forall i :: 0 <= i < |Utf8(c)| ==> 0 <= Utf8(c)[i] < 0x100
    ensures var first := Utf8(c)[0];
            |Utf8(c)| == if first < 0x80 then 1 else if first < 0xE0 then 2 else if first < 0xF0 then 3 else 4
    ensures forall i :: 0 < i < |Utf8(c)| ==> 0x80 <= Utf8(c)[i] < 0xC0
    ensures CodePoint(Utf8(c)) == c as int
  {
    var x := c as int;
    assert x / 0x40 / 0x40 == x / 0x1000 && x / 0x1000 / 0x40 == x / 0x4_0000;
  }

  function Encoded(text: string): seq<int> {
    if text == [] then [] else Utf8(text[0]) + Encoded(text[1..])
  }

  /** The length that is charged is that of the UTF-8 text. */
  lemma {:induction false} ByteLengthIsUtf8(text: string)
    ensures ByteLength(text) == |Encoded(text)|
  {
    if text == [] {
    } else {
      ByteLengthIsUtf8(text[1..]);
    }
  }

  // ----- The steps of a write -----

  function Recorded(t: Tables, calendarId: nat, name: string, action: Action): Result<Tables> {
    if calendarId !in t.calendars then Failure(NotFound)
    else
      var calendar := t.calendars[calendarId].(syncSeq := t.calendars[calendarId].syncSeq + 1);
      Success(t.(calendars := t.calendars[calendarId := calendar],
                 changes := t.changes + [Change(calendarId, calendar.syncSeq, name, action)]))
  }

  /** One conditional update: a non-positive delta is never refused, and nothing goes below zero. */
  function Adjusted(accounts: map<nat, Account>, id: nat, delta: int): Option<map<nat, Account>> {
    if id in accounts
       && (delta <= 0 || accounts[id].limit.None? || accounts[id].used + delta <= accounts[id].limit.value) then
      var used := accounts[id].used + delta;
      Some(accounts[id := accounts[id].(used := if used > 0 then used else 0)])
    else None
  }

  function Charged(t: Tables, user: nat, tenant: nat, delta: int): Result<Tables> {
    match Adjusted(t.users, user, delta)
    case None => Failure(QuotaExceeded(UserQuota))
    case Some(users) =>
      match Adjusted(t.tenants, tenant, delta)
      case None => Failure(QuotaExceeded(TenantQuota))
      case Some(tenants) => Success(t.(users := users, tenants := tenants))
  }

  /** There is such a counter, and it stays within its limit: nothing is refused that adds nothing. */
  ghost predicate HasRoom(accounts: map<nat, Account>, id: nat, delta: int) {
    && id in accounts
    && (delta <= 0 || accounts[id].limit.None? || accounts[id].used + delta <= accounts[id].limit.value)
  }

  /** The counter went up by `delta`, or down to nothing at most; nothing else changed. */
  ghost predicate Moved(before: map<nat, Account>, after: map<nat, Account>, id: nat, delta: int) {
    && id in before && after.Keys == before.Keys
    && (forall k :: k in before && k != id ==> after[k] == before[k])
    && after[id].limit == before[id].limit
    && (before[id].used + delta >= 0 ==> after[id].used == before[id].used + delta)
    && (before[id].used + delta < 0 ==> after[id].used == 0)
  }

  /** A charge succeeds exactly if both counters have room, and moves both; else the user's refusal comes first. */
  lemma ChargeIsDecided(t: Tables, user: nat, tenant: nat, delta: int)
    ensures Charged(t, user, tenant, delta).Success?
            <==> HasRoom(t.users, user, delta) && HasRoom(t.tenants, tenant, delta)
    ensures Charged(t, user, tenant, delta) == Failure(QuotaExceeded(UserQuota)) <==> !HasRoom(t.users, user, delta)
    ensures Charged(t, user, tenant, delta) == Failure(QuotaExceeded(TenantQuota))
            <==> HasRoom(t.users, user, delta) && !HasRoom(t.tenants, tenant, delta)
    ensures Charged(t, user, tenant, delta).Success? ==>
              var next := Charged(t, user, tenant, delta).value;
              && Moved(t.users, next.users, user, delta) && Moved(t.tenants, next.tenants, tenant, delta)
              && next == t.(users := next.users, tenants := next.tenants)
  {
  }

  /** The object of the calendar with this UID, if any. */
  function FindByUid(objects: map<nat, Row>, n: nat, calendarId: nat, uid: string): (found: Option<nat>)
    ensures found.Some? ==> found.value < n && found.value in objects
    ensures found.Some? ==> objects[found.value].calendarId == calendarId && objects[found.value].uid == uid
    ensures found.None? ==> forall id :: id < n && id in objects && objects[id].calendarId == calendarId ==>
              objects[id].uid != uid
  {
    if n == 0 then None
    else if n - 1 in objects && objects[n - 1].calendarId == calendarId && objects[n - 1].uid == uid then Some(n - 1)
    else FindByUid(objects, n - 1, calendarId, uid)
  }

  predicate NameTaken(objects: map<nat, Row>, calendarId: nat, name: string) {
    exists id :: id in objects && objects[id].calendarId == calendarId && objects[id].name == name
  }

  /** `WHERE id = ? [AND etag = ?]` finds the row. */
  predicate Matches(objects: map<nat, Row>, id: nat, expectedEtag: Option<string>) {
    id in objects && (expectedEtag.None? || objects[id].etag == expectedEtag.value)
  }

  function Overwritten(t: Tables, input: SaveInput, e: Snapshot): Result<(Tables, Saved)> {
    if !Matches(t.objects, e.id, input.expectedEtag) then Failure(ObjectChanged(input.name))
    else if e.id !in t.contents || e.row.owner !in t.users then Failure(NotFound)
    else
      match Charged(t, e.row.owner, input.tenantId, ByteLength(input.ics) - ByteLength(t.contents[e.id]))
      case Failure(error) => Failure(error)
      case Success(c) =>
        var row := t.objects[e.id].(etag := input.etag, componentType := input.parsed.componentType,
                                    index := input.parsed.index);
        Success((c.(objects := t.objects[e.id := row], contents := t.contents[e.id := input.ics]), Saved(false, e.id)))
  }

  function Created(t: Tables, input: SaveInput): Result<(Tables, Saved)> {
    if input.owner !in t.users then Failure(NotFound)
    else
      match Charged(t, input.owner, input.tenantId, ByteLength(input.ics))
      case Failure(error) => Failure(error)
      case Success(c) =>
        if NameTaken(t.objects, input.calendarId, input.name) then Failure(UniqueViolation)
        else
          var row := Row(input.calendarId, input.tenantId, input.name, input.parsed.uid, input.owner,
                         input.etag, input.parsed.componentType, input.parsed.index);
          Success((c.(objects := t.objects[t.nextId := row], contents := t.contents[t.nextId := input.ics],
                      nextId := t.nextId + 1),
                   Saved(true, t.nextId)))
  }

  /** `write`: the change is recorded first, then the UID is checked, then the row is written. */
  function Written(t: Tables, input: SaveInput): Result<(Tables, Saved)> {
    match Recorded(t, input.calendarId, input.name, if input.existing.Some? then Modified else Added)
    case Failure(error) => Failure(error)
    case Success(r) =>
      if input.existing.Some? && input.existing.value.row.uid != input.parsed.uid then
        Failure(UidConflict(input.existing.value.row.name))
      else
        var clash := FindByUid(r.objects, r.nextId, input.calendarId, input.parsed.uid);
        if clash.Some? && (input.existing.None? || clash.value != input.existing.value.id) then
          Failure(if r.objects[clash.value].name == input.name then ObjectChanged(input.name)
                  else UidConflict(r.objects[clash.value].name))
        else if input.existing.Some? then Overwritten(r, input, input.existing.value)
        else Created(r, input)
  }

  /** What a unique index's refusal is reported as, by a look at the table after the rollback. */
  function Refusal(t: Tables, input: SaveInput): Error {
    var clash := FindByUid(t.objects, t.nextId, input.calendarId, input.parsed.uid);
    if clash.Some? && (input.existing.None? || clash.value != input.existing.value.id)
       && t.objects[clash.value].name != input.name then
      UidConflict(t.objects[clash.value].name)
    else ObjectChanged(input.name)
  }

  /** `saveCalendarObject`: the transaction; on failure everything is rolled back. */
  function SaveOutcome(t: Tables, input: SaveInput): (Tables, Result<Saved>) {
    match Written(t, input)
    case Success((next, saved)) => (next, Success(saved))
    case Failure(UniqueViolation) => (t, Failure(Refusal(t, input)))
    case Failure(error) => (t, Failure(error))
  }

  function Removed(t: Tables, input: DeleteInput): Result<Tables> {
    var o := input.target;
    match Recorded(t, input.calendarId, o.row.name, Deleted)
    case Failure(error) => Failure(error)
    case Success(r) =>
      if o.id in r.contents && o.row.owner !in r.users then Failure(NotFound)
      else
        match if o.id !in r.contents then Success(r)
              else Charged(r, o.row.owner, o.row.tenantId, 0 - ByteLength(r.contents[o.id]))
        case Failure(error) => Failure(error)
        case Success(c) =>
          if !Matches(c.objects, o.id, input.expectedEtag) then Failure(NothingToDelete)
          else Success(c.(objects := c.objects - {o.id}, contents := c.contents - {o.id}))
  }

  /** `deleteCalendarObject`: `false`, with nothing changed, if there was nothing to delete. */
  function DeleteOutcome(t: Tables, input: DeleteInput): (Tables, Result<bool>) {
    match Removed(t, input)
    case Success(next) => (next, Success(true))
    case Failure(NothingToDelete) => (t, Success(false))
    case Failure(error) => (t, Failure(error))
  }

  // ----- The database -----

  class Database {
    var objects: map<nat, Row>
    var contents: map<nat, string>
    var nextId: nat
    var calendars: map<nat, Calendar>
    var changes: seq<Change>
    var users: map<nat, Account>
    var tenants: map<nat, Account>

    function State(): Tables
      reads this
    {
      Tables(objects, contents, nextId, calendars, changes, users, tenants)
    }

    constructor (t: Tables)
      ensures State() == t
    {
      objects, contents, nextId := t.objects, t.contents, t.nextId;
      calendars, changes, users, tenants := t.calendars, t.changes, t.users, t.tenants;
    }

    method Rollback(t: Tables)
      modifies this
      ensures State() == t
    {
      objects, contents, nextId := t.objects, t.contents, t.nextId;
      calendars, changes, users, tenants := t.calendars, t.changes, t.users, t.tenants;
    }

    method RecordChange(calendarId: nat, childName: string, action: Action) returns (failed: bool)
      modifies this`calendars, this`changes
      ensures failed <==> Recorded(old(State()), calendarId, childName, action).Failure?
      ensures failed ==> State() == old(State())
      ensures !failed ==> Success(State()) == Recorded(old(State()), calendarId, childName, action)
    {
      if calendarId !in calendars {
        return true;
      }
      calendars := calendars[calendarId := calendars[calendarId].(syncSeq := calendars[calendarId].syncSeq + 1)];
      var parent := calendars[calendarId];
      changes := changes + [Change(calendarId, parent.syncSeq, childName, action)];
      return false;
    }

    /** The user's counter first, then the tenant's; a refusal may leave the first changed, for the rollback to undo. */
    method ApplyQuotaDelta(user: nat, tenant: nat, delta: int) returns (refused: Option<QuotaLevel>)
      modifies this`users, this`tenants
      ensures refused.Some? ==> Charged(old(State()), user, tenant, delta) == Failure(QuotaExceeded(refused.value))
      ensures refused.None? ==> Charged(old(State()), user, tenant, delta) == Success(State())
    {
      if user !in users
         || !(delta <= 0 || users[user].limit.None? || users[user].used + delta <= users[user].limit.value) {
        return Some(UserQuota);
      }
      var used := users[user].used + delta;
      users := users[user := users[user].(used := if used > 0 then used else 0)];
      if tenant !in tenants
         || !(delta <= 0 || tenants[tenant].limit.None?
              || tenants[tenant].used + delta <= tenants[tenant].limit.value) {
        return Some(TenantQuota);
      }
      used := tenants[tenant].used + delta;
      tenants := tenants[tenant := tenants[tenant].(used := if used > 0 then used else 0)];
      return None;
    }

    method Write(input: SaveInput) returns (r: Result<Saved>)
      modifies this
      ensures r.Failure? <==> Written(old(State()), input).Failure?
      ensures r.Failure? ==> Written(old(State()), input).error == r.error
      ensures r.Success? ==> Written(old(State()), input) == Success((State(), r.value))
    {
      var failed := RecordChange(input.calendarId, input.name, if input.existing.Some? then Modified else Added);
      if failed {
        return Failure(NotFound);
      }
      if input.existing.Some? && input.existing.value.row.uid != input.parsed.uid {
        return Failure(UidConflict(input.existing.value.row.name));
      }
      var clash := FindByUid(objects, nextId, input.calendarId, input.parsed.uid);
      if clash.Some? && (input.existing.None? || clash.value != input.existing.value.id) {
        return Failure(if objects[clash.value].name == input.name then ObjectChanged(input.name)
                       else UidConflict(objects[clash.value].name));
      }
      if input.existing.Some? {
        r := Overwrite(input, input.existing.value);
      } else {
        r := Create(input);
      }
    }

    method Overwrite(input: SaveInput, existing: Snapshot) returns (r: Result<Saved>)
      modifies this
      ensures r.Failure? <==> Overwritten(old(State()), input, existing).Failure?
      ensures r.Failure? ==> Overwritten(old(State()), input, existing).error == r.error
      ensures r.Success? ==> Overwritten(old(State()), input, existing) == Success((State(), r.value))
    {
      if !Matches(objects, existing.id, input.expectedEtag) {
        return Failure(ObjectChanged(input.name));
      }
      ghost var was := objects;
      var row := objects[existing.id].(etag := input.etag, componentType := input.parsed.componentType);
      objects := objects[existing.id := row];
      if existing.id !in contents || existing.row.owner !in users {
        return Failure(NotFound);
      }
      var delta := ByteLength(input.ics) - ByteLength(contents[existing.id]);
      var refused := ApplyQuotaDelta(existing.row.owner, input.tenantId, delta);
      if refused.Some? {
        return Failure(QuotaExceeded(refused.value));
      }
      contents := contents[existing.id := input.ics];
      objects := objects[existing.id := objects[existing.id].(index := input.parsed.index)];
      assert objects == was[existing.id := objects[existing.id]];
      return Success(Saved(false, existing.id));
    }

    method Create(input: SaveInput) returns (r: Result<Saved>)
      modifies this
      ensures r.Failure? <==> Created(old(State()), input).Failure?
      ensures r.Failure? ==> Created(old(State()), input).error == r.error
      ensures r.Success? ==> Created(old(State()), input) == Success((State(), r.value))
    {
      if input.owner !in users {
        return Failure(NotFound);
      }
      var refused := ApplyQuotaDelta(input.owner, input.tenantId, ByteLength(input.ics));
      if refused.Some? {
        return Failure(QuotaExceeded(refused.value));
      }
      if NameTaken(objects, input.calendarId, input.name) {
        return Failure(UniqueViolation);
      }
      var id := nextId;
      nextId := nextId + 1;
      objects := objects[id := Row(input.calendarId, input.tenantId, input.name, input.parsed.uid, input.owner,
                                   input.etag, input.parsed.componentType, input.parsed.index)];
      contents := contents[id := input.ics];
      return Success(Saved(true, id));
    }

    method SaveCalendarObject(input: SaveInput) returns (r: Result<Saved>)
      modifies this
      ensures (State(), r) == SaveOutcome(old(State()), input)
      ensures r.Failure? ==> State() == old(State())
    {
      var before := State();
      r := Write(input);
      if r.Failure? {
        Rollback(before);
        if r.error == UniqueViolation {
          r := Failure(Refusal(State(), input));
        }
      }
    }

    method DeleteCalendarObject(input: DeleteInput) returns (r: Result<bool>)
      modifies this
      ensures (State(), r) == DeleteOutcome(old(State()), input)
      ensures r != Success(true) ==> State() == old(State())
    {
      var before := State();
      var failed := Remove(input);
      if failed.Some? {
        Rollback(before);
        return if failed.value == NothingToDelete then Success(false) else Failure(failed.value);
      }
      return Success(true);
    }

    method Remove(input: DeleteInput) returns (failed: Option<Error>)
      modifies this
      ensures failed.Some? ==> Removed(old(State()), input) == Failure(failed.value)
      ensures failed.None? ==> Removed(old(State()), input) == Success(State())
    {
      var o := input.target;
      var missing := RecordChange(input.calendarId, o.row.name, Deleted);
      if missing {
        return Some(NotFound);
      }
      if o.id in contents {
        if o.row.owner !in users {
          return Some(NotFound);
        }
        var refused := ApplyQuotaDelta(o.row.owner, o.row.tenantId, 0 - ByteLength(contents[o.id]));
        if refused.Some? {
          return Some(QuotaExceeded(refused.value));
        }
      }
      if !Matches(objects, o.id, input.expectedEtag) {
        return Some(NothingToDelete);
      }
      objects := objects - {o.id};
      contents := contents - {o.id};
      return None;
    }
  }

  // ----- The invariant -----

  function LogOf(changes: seq<Change>, calendarId: nat): seq<Change> {
    if changes == [] then []
    else
      var n := |changes| - 1;
      if changes[n].calendarId == calendarId then LogOf(changes[..n], calendarId) + [changes[n]]
      else LogOf(changes[..n], calendarId)
  }

  /** What a client does with the changes it is sent. */
  function Replay(names: set<string>, log: seq<Change>): set<string> {
    if log == [] then names
    else
      var n := |log| - 1;
      var before := Replay(names, log[..n]);
      if log[n].action.Deleted? then before - {log[n].name} else before + {log[n].name}
  }

  function NamesIn(objects: map<nat, Row>, calendarId: nat): set<string> {
    set id | id in objects && objects[id].calendarId == calendarId :: objects[id].name
  }

  /** Rows, content and index columns belong together; owners and calendars exist. */
  ghost predicate RowOk(t: Tables, parse: string -> Parsed, id: nat) {
    id in t.objects ==>
      var row := t.objects[id];
      && id < t.nextId && id in t.contents
      && row.calendarId in t.calendars && t.calendars[row.calendarId].tenantId == row.tenantId
      && row.owner in t.users && row.tenantId in t.tenants
      && parse(t.contents[id]) == Parsed(row.uid, row.componentType, row.index)
  }

  /** No two objects of a calendar share a name or a UID. */
  ghost predicate NoTwins(objects: map<nat, Row>, i: nat, j: nat) {
    i in objects && j in objects && i != j && objects[i].calendarId == objects[j].calendarId ==>
      objects[i].name != objects[j].name && objects[i].uid != objects[j].uid
  }

  /** The calendar's log is numbered 1 to `syncSeq` without a gap, and replaying it from nothing gives its names. */
  ghost predicate LogOk(t: Tables, c: nat) {
    c in t.calendars ==>
      var log := LogOf(t.changes, c);
      && |log| == t.calendars[c].syncSeq
      && (forall k :: 0 <= k < |log| ==> log[k].seqNo == k + 1)
      && Replay({}, log) == NamesIn(t.objects, c)
  }

  ghost predicate Consistent(t: Tables, parse: string -> Parsed) {
    && t.contents.Keys == t.objects.Keys
    && (forall id :: RowOk(t, parse, id))
    && (forall i, j :: NoTwins(t.objects, i, j))
    && (forall c :: LogOk(t, c))
  }

  /** A snapshot is of a row that exists or has existed: what never changes of it still agrees. */
  ghost predicate ReadOnce(t: Tables, s: Snapshot) {
    s.id < t.nextId && (s.id in t.objects ==> SameIdentity(s.row, t.objects[s.id]))
  }

  ghost predicate SameIdentity(a: Row, b: Row) {
    a.calendarId == b.calendarId && a.tenantId == b.tenantId && a.name == b.name && a.uid == b.uid && a.owner == b.owner
  }

  /** What the callers of `saveCalendarObject` promise: the parsed text is that of the submitted one, the tenant
      is the calendar's, and `existing` is a row read at this URL. */
  ghost predicate SaveFits(t: Tables, input: SaveInput, parse: string -> Parsed) {
    && input.parsed == parse(input.ics)
    && (input.calendarId in t.calendars ==> t.calendars[input.calendarId].tenantId == input.tenantId)
    && (input.existing.Some? ==>
          && ReadOnce(t, input.existing.value)
          && input.existing.value.row.calendarId == input.calendarId
          && input.existing.value.row.name == input.name)
  }

  ghost predicate DeleteFits(t: Tables, input: DeleteInput) {
    ReadOnce(t, input.target) && input.target.row.calendarId == input.calendarId
  }

  /** One transaction's change to the log: it is numbered next, in its own calendar only. */
  lemma LogGrows(changes: seq<Change>, change: Change, c: nat)
    ensures LogOf(changes + [change], c)
            == if change.calendarId == c then LogOf(changes, c) + [change] else LogOf(changes, c)
  {
    assert (changes + [change])[..|changes|] == changes;
  }

  lemma ReplayOne(names: set<string>, log: seq<Change>, change: Change)
    ensures Replay(names, log + [change]) ==
            if change.action.Deleted? then Replay(names, log) - {change.name} else Replay(names, log) + {change.name}
  {
    assert (log + [change])[..|log|] == log;
  }

  /** The log stays right if the recorded change is what happens to the names. */
  lemma LogStep(t: Tables, next: Tables, c: nat, name: string, action: Action)
    requires forall k :: LogOk(t, k)
    requires Recorded(t, c, name, action).Success?
    requires next.calendars == Recorded(t, c, name, action).value.calendars
    requires next.changes == Recorded(t, c, name, action).value.changes
    requires NamesIn(next.objects, c)
             == if action.Deleted? then NamesIn(t.objects, c) - {name} else NamesIn(t.objects, c) + {name}
    requires forall k :: k != c ==> NamesIn(next.objects, k) == NamesIn(t.objects, k)
    ensures forall k :: LogOk(next, k)
  {
    var change := Change(c, t.calendars[c].syncSeq + 1, name, action);
    forall k
      ensures LogOk(next, k)
    {
      assert LogOk(t, k);
      LogGrows(t.changes, change, k);
      if k == c {
        ReplayOne({}, LogOf(t.changes, c), change);
      }
    }
  }

  // ----- A save keeps the invariant -----

  lemma OverwriteEffect(t: Tables, input: SaveInput, parse: string -> Parsed)
    requires Consistent(t, parse) && SaveFits(t, input, parse)
    requires Written(t, input).Success? && input.existing.Some?
    ensures var next, id := Written(t, input).value.0, input.existing.value.id;
            && id in t.objects && id in t.contents
            && SameIdentity(input.existing.value.row, t.objects[id]) && t.objects[id].uid == input.parsed.uid
            && next.objects
               == t.objects[id := t.objects[id].(etag := input.etag, componentType := input.parsed.componentType,
                                                 index := input.parsed.index)]
            && next.contents == t.contents[id := input.ics] && next.nextId == t.nextId
    ensures var next, id := Written(t, input).value.0, input.existing.value.id;
            && Recorded(t, input.calendarId, input.name, Modified).Success?
            && next.calendars == Recorded(t, input.calendarId, input.name, Modified).value.calendars
            && next.changes == Recorded(t, input.calendarId, input.name, Modified).value.changes
            && var delta := ByteLength(input.ics) - ByteLength(t.contents[id]);
               Adjusted(t.users, t.objects[id].owner, delta) == Some(next.users)
                 && Adjusted(t.tenants, t.objects[id].tenantId, delta) == Some(next.tenants)
    ensures input.expectedEtag.Some? ==> t.objects[input.existing.value.id].etag == input.expectedEtag.value
  {
    assert RowOk(t, parse, input.existing.value.id);
  }

  lemma CreateEffect(t: Tables, input: SaveInput)
    requires Written(t, input).Success? && input.existing.None?
    ensures var next := Written(t, input).value.0;
            && next.objects
               == t.objects[t.nextId := Row(input.calendarId, input.tenantId, input.name, input.parsed.uid, input.owner,
                                                           input.etag, input.parsed.componentType, input.parsed.index)]
            && next.contents == t.contents[t.nextId := input.ics] && next.nextId == t.nextId + 1
            && input.owner in t.users && input.tenantId in t.tenants
    ensures var next := Written(t, input).value.0;
            && Recorded(t, input.calendarId, input.name, Added).Success?
            && next.calendars == Recorded(t, input.calendarId, input.name, Added).value.calendars
            && next.changes == Recorded(t, input.calendarId, input.name, Added).value.changes
            && Adjusted(t.users, input.owner, ByteLength(input.ics)) == Some(next.users)
            && Adjusted(t.tenants, input.tenantId, ByteLength(input.ics)) == Some(next.tenants)
    ensures forall id :: id < t.nextId && id in t.objects && t.objects[id].calendarId == input.calendarId ==>
              t.objects[id].name != input.name && t.objects[id].uid != input.parsed.uid
  {
  }

  lemma DeleteEffect(t: Tables, input: DeleteInput, parse: string -> Parsed)
    requires Consistent(t, parse) && DeleteFits(t, input) && Removed(t, input).Success?
    ensures var next, id, c := Removed(t, input).value, input.target.id, input.calendarId;
            && id in t.objects && id in t.contents && SameIdentity(input.target.row, t.objects[id])
            && next.objects == t.objects - {id} && next.contents == t.contents - {id} && next.nextId == t.nextId
            && Recorded(t, c, t.objects[id].name, Deleted).Success?
            && next.calendars == Recorded(t, c, t.objects[id].name, Deleted).value.calendars
            && next.changes == Recorded(t, c, t.objects[id].name, Deleted).value.changes
    ensures var next, id := Removed(t, input).value, input.target.id;
            var delta := 0 - ByteLength(t.contents[id]);
            Adjusted(t.users, t.objects[id].owner, delta) == Some(next.users)
              && Adjusted(t.tenants, t.objects[id].tenantId, delta) == Some(next.tenants)
    ensures input.expectedEtag.Some? ==> t.objects[input.target.id].etag == input.expectedEtag.value
  {
    assert RowOk(t, parse, input.target.id);
  }

  lemma OverwriteKeeps(t: Tables, input: SaveInput, parse: string -> Parsed)
    requires Consistent(t, parse) && SaveFits(t, input, parse)
    requires Written(t, input).Success? && input.existing.Some?
    ensures Consistent(Written(t, input).value.0, parse)
  {
    var next, id, c := Written(t, input).value.0, input.existing.value.id, input.calendarId;
    OverwriteEffect(t, input, parse);
    assert RowOk(t, parse, id);
    forall k
      ensures NamesIn(next.objects, k) == NamesIn(t.objects, k)
    {
      SameNames(t.objects, next.objects, k);
    }
    assert t.objects[id].name in NamesIn(t.objects, c);
    LogStep(t, next, c, input.name, Modified);
    forall i
      ensures RowOk(next, parse, i)
    {
      assert RowOk(t, parse, i);
    }
    forall i, j
      ensures NoTwins(next.objects, i, j)
    {
      assert NoTwins(t.objects, i, j);
    }
  }

  lemma SameNames(a: map<nat, Row>, b: map<nat, Row>, c: nat)
    requires a.Keys == b.Keys && forall id :: id in a ==>
               a[id].name == b[id].name && a[id].calendarId == b[id].calendarId
    ensures NamesIn(a, c) == NamesIn(b, c)
  {
  }

  lemma CreateKeeps(t: Tables, input: SaveInput, parse: string -> Parsed)
    requires Consistent(t, parse) && SaveFits(t, input, parse)
    requires Written(t, input).Success? && input.existing.None?
    ensures Consistent(Written(t, input).value.0, parse)
  {
    var next, id, c := Written(t, input).value.0, t.nextId, input.calendarId;
    CreateEffect(t, input);
    assert id !in t.objects by {
      assert RowOk(t, parse, id);
    }
    NamesAfterCreate(t.objects, id, next.objects[id], c);
    forall k | k != c
      ensures NamesIn(next.objects, k) == NamesIn(t.objects, k)
    {
      NamesAfterCreate(t.objects, id, next.objects[id], k);
    }
    LogStep(t, next, c, input.name, Added);
    forall i
      ensures RowOk(next, parse, i)
    {
      assert RowOk(t, parse, i);
    }
    forall i, j
      ensures NoTwins(next.objects, i, j)
    {
      assert NoTwins(t.objects, i, j) && RowOk(t, parse, i) && RowOk(t, parse, j);
    }
  }

  lemma NamesAfterCreate(objects: map<nat, Row>, id: nat, row: Row, c: nat)
    requires id !in objects
    ensures NamesIn(objects[id := row], c) == NamesIn(objects, c) + (if row.calendarId == c then {row.name} else {})
  {
    var after := objects[id := row];
    forall name | name in NamesIn(objects, c)
      ensures name in NamesIn(after, c)
    {
      var k :| k in objects && objects[k].calendarId == c && objects[k].name == name;
      assert after[k] == objects[k];
    }
    assert row.calendarId == c ==> after[id].name in NamesIn(after, c);
  }

  lemma DeleteKeeps(t: Tables, input: DeleteInput, parse: string -> Parsed)
    requires Consistent(t, parse) && DeleteFits(t, input) && Removed(t, input).Success?
    ensures Consistent(Removed(t, input).value, parse)
  {
    var next, id, c := Removed(t, input).value, input.target.id, input.calendarId;
    DeleteEffect(t, input, parse);
    NamesAfterDelete(t.objects, id, c);
    forall k | k != c
      ensures NamesIn(next.objects, k) == NamesIn(t.objects, k)
    {
      NamesAfterDelete(t.objects, id, k);
    }
    LogStep(t, next, c, t.objects[id].name, Deleted);
    forall i
      ensures RowOk(next, parse, i)
    {
      assert RowOk(t, parse, i);
    }
    forall i, j
      ensures NoTwins(next.objects, i, j)
    {
      assert NoTwins(t.objects, i, j);
    }
  }

  lemma NamesAfterDelete(objects: map<nat, Row>, id: nat, c: nat)
    requires id in objects && forall i, j :: NoTwins(objects, i, j)
    ensures NamesIn(objects - {id}, c)
            == NamesIn(objects, c) - (if objects[id].calendarId == c then {objects[id].name} else {})
  {
    var after := objects - {id};
    forall name | name in NamesIn(objects, c) && !(objects[id].calendarId == c && name == objects[id].name)
      ensures name in NamesIn(after, c)
    {
      var k :| k in objects && objects[k].calendarId == c && objects[k].name == name;
      assert k != id && after[k] == objects[k];
    }
    forall name | name in NamesIn(after, c) && objects[id].calendarId == c
      ensures name != objects[id].name
    {
      var k :| k in after && after[k].calendarId == c && after[k].name == name;
      assert NoTwins(objects, k, id);
    }
  }

  // ----- Runs -----

  datatype Op = Save(save: SaveInput) | Delete(delete: DeleteInput)

  function After(t: Tables, op: Op): Tables {
    match op
    case Save(input) => SaveOutcome(t, input).0
    case Delete(input) => DeleteOutcome(t, input).0
  }

  /** The operation took effect, and nothing else did otherwise. */
  predicate Commits(t: Tables, op: Op) {
    match op
    case Save(input) => SaveOutcome(t, input).1.Success?
    case Delete(input) => DeleteOutcome(t, input).1 == Success(true)
  }

  ghost predicate Fits(t: Tables, op: Op, parse: string -> Parsed) {
    match op
    case Save(input) => SaveFits(t, input, parse)
    case Delete(input) => DeleteFits(t, input)
  }

  /** A failed operation leaves no trace; one that commits keeps the invariant. */
  lemma StepKeepsConsistent(t: Tables, op: Op, parse: string -> Parsed)
    requires Consistent(t, parse) && Fits(t, op, parse)
    ensures Consistent(After(t, op), parse)
    ensures !Commits(t, op) ==> After(t, op) == t
  {
    if Commits(t, op) {
      match op
      case Save(input) =>
        if input.existing.Some? {
          OverwriteKeeps(t, input, parse);
        } else {
          CreateKeeps(t, input, parse);
        }
      case Delete(input) =>
        DeleteKeeps(t, input, parse);
    }
  }

  /** What one step may do to the rows: identities stay, new ids are new, and the log only grows. */
  ghost predicate Extends(t: Tables, next: Tables) {
    && t.nextId <= next.nextId
    && (forall id :: id in next.objects && id < t.nextId ==>
          id in t.objects && SameIdentity(t.objects[id], next.objects[id]))
    && t.changes <= next.changes
    && t.calendars.Keys == next.calendars.Keys
    && forall c :: c in t.calendars ==> next.calendars[c].tenantId == t.calendars[c].tenantId
  }

  lemma SaveExtends(t: Tables, input: SaveInput, parse: string -> Parsed)
    requires Consistent(t, parse) && SaveFits(t, input, parse) && Written(t, input).Success?
    ensures Extends(t, Written(t, input).value.0)
  {
    if input.existing.Some? {
      OverwriteEffect(t, input, parse);
    } else {
      CreateEffect(t, input);
    }
  }

  lemma DeleteExtends(t: Tables, input: DeleteInput, parse: string -> Parsed)
    requires Consistent(t, parse) && DeleteFits(t, input) && Removed(t, input).Success?
    ensures Extends(t, Removed(t, input).value)
  {
    DeleteEffect(t, input, parse);
  }

  lemma StepExtends(t: Tables, op: Op, parse: string -> Parsed)
    requires Consistent(t, parse) && Fits(t, op, parse)
    ensures Extends(t, After(t, op))
  {
    if Commits(t, op) {
      match op
      case Save(input) => SaveExtends(t, input, parse);
      case Delete(input) => DeleteExtends(t, input, parse);
    }
  }

  lemma ExtendsTransitive(a: Tables, b: Tables, c: Tables)
    requires Extends(a, b) && Extends(b, c)
    ensures Extends(a, c)
  {
  }

  function SnapshotOf(op: Op): Option<Snapshot> {
    match op
    case Save(input) => input.existing
    case Delete(input) => Some(input.target)
  }

  ghost predicate HasRow(t: Tables, s: Snapshot) {
    s.id in t.objects && t.objects[s.id] == s.row
  }

  /** What the callers promise of each operation by itself. */
  ghost predicate WellFormed(t: Tables, op: Op, parse: string -> Parsed) {
    match op
    case Save(input) =>
      && input.parsed == parse(input.ics)
      && (input.calendarId in t.calendars ==> t.calendars[input.calendarId].tenantId == input.tenantId)
      && (input.existing.Some? ==>
            input.existing.value.row.calendarId == input.calendarId && input.existing.value.row.name == input.name)
    case Delete(input) => input.target.row.calendarId == input.calendarId
  }

  /** Operation `n` leads from state `n` to the next. */
  ghost predicate StepAt(states: seq<Tables>, ops: seq<Op>, n: nat) {
    n < |ops| && n + 1 < |states| && states[n + 1] == After(states[n], ops[n])
  }

  /** Operation `n` is a proper call, working from a row that was read at some earlier moment of the run. */
  ghost predicate CallAt(states: seq<Tables>, ops: seq<Op>, n: nat, parse: string -> Parsed) {
    && n < |ops| && n < |states|
    && WellFormed(states[0], ops[n], parse)
    && (SnapshotOf(ops[n]).Some? ==> exists m :: 0 <= m <= n && HasRow(states[m], SnapshotOf(ops[n]).value))
  }

  /** Any interleaving of saves and deletes, in the order in which they took the calendar's lock,
      from a consistent state on. */
  ghost predicate Interleaving(states: seq<Tables>, ops: seq<Op>, parse: string -> Parsed) {
    && |states| == |ops| + 1
    && Consistent(states[0], parse)
    && (forall n :: 0 <= n < |ops| ==> StepAt(states, ops, n))
    && (forall n :: 0 <= n < |ops| ==> CallAt(states, ops, n, parse))
  }

  lemma SnapshotStays(t: Tables, later: Tables, s: Snapshot, parse: string -> Parsed)
    requires Consistent(t, parse) && HasRow(t, s) && Extends(t, later)
    ensures ReadOnce(later, s)
  {
    assert RowOk(t, parse, s.id);
  }

  /** State `m` of the run is consistent, and state `n` extends it. */
  ghost predicate Reached(states: seq<Tables>, m: nat, n: nat, parse: string -> Parsed) {
    m <= n < |states| && Consistent(states[m], parse) && Extends(states[m], states[n])
  }

  lemma CallFits(states: seq<Tables>, ops: seq<Op>, n: nat, parse: string -> Parsed)
    requires Interleaving(states, ops, parse) && n < |ops| && forall m :: 0 <= m <= n ==> Reached(states, m, n, parse)
    ensures Fits(states[n], ops[n], parse)
  {
    assert CallAt(states, ops, n, parse);
    assert Reached(states, 0, n, parse);
    if SnapshotOf(ops[n]).Some? {
      var m :| 0 <= m <= n && HasRow(states[m], SnapshotOf(ops[n]).value);
      assert Reached(states, m, n, parse);
      SnapshotStays(states[m], states[n], SnapshotOf(ops[n]).value, parse);
    }
  }

  lemma NextReached(states: seq<Tables>, ops: seq<Op>, n: nat, parse: string -> Parsed)
    requires StepAt(states, ops, n) && Fits(states[n], ops[n], parse) && Consistent(states[n], parse)
    ensures Consistent(states[n + 1], parse) && Extends(states[n], states[n + 1])
  {
    StepKeepsConsistent(states[n], ops[n], parse);
    StepExtends(states[n], ops[n], parse);
  }

  /** Over every interleaving, each state is consistent and extends every earlier one. */
  lemma {:induction false} RunKeepsConsistent(states: seq<Tables>, ops: seq<Op>, n: nat, parse: string -> Parsed)
    requires Interleaving(states, ops, parse) && n <= |ops|
    ensures forall m :: 0 <= m <= n ==> Reached(states, m, n, parse)
    ensures n < |ops| ==> Fits(states[n], ops[n], parse)
  {
    if n == 0 {
    } else {
      RunKeepsConsistent(states, ops, n - 1, parse);
      assert Reached(states, n - 1, n - 1, parse) && StepAt(states, ops, n - 1);
      NextReached(states, ops, n - 1, parse);
      forall m | 0 <= m <= n
        ensures Reached(states, m, n, parse)
      {
        if m < n {
          assert Reached(states, m, n - 1, parse);
          ExtendsTransitive(states[m], states[n - 1], states[n]);
        }
      }
    }
    if n < |ops| {
      CallFits(states, ops, n, parse);
    }
  }

  // ----- The change log, replayed from any token -----

  lemma {:induction false} ReplayConcat(names: set<string>, a: seq<Change>, b: seq<Change>)
    ensures Replay(names, a + b) == Replay(Replay(names, a), b)
  {
    if b == [] {
      assert a + b == a;
    } else {
      var n := |b| - 1;
      ReplayConcat(names, a, b[..n]);
      assert a + b == (a + b[..n]) + [b[n]];
      ReplayOne(names, a + b[..n], b[n]);
    }
  }

  lemma {:induction false} LogPrefix(a: seq<Change>, b: seq<Change>, c: nat)
    requires a <= b
    ensures LogOf(a, c) <= LogOf(b, c)
  {
    if |a| < |b| {
      LogPrefix(a, b[..|b| - 1], c);
    } else {
      assert a == b;
    }
  }

  /** Section 3 of RFC 6578: a client that holds the members of state `m` and its token gets, by applying the
      entries after the token, the members of any later state. The numbers in the log are 1 to `syncSeq`. */
  lemma ChangesSinceTokenSuffice(states: seq<Tables>, ops: seq<Op>, m: nat, n: nat, c: nat, parse: string -> Parsed)
    requires Interleaving(states, ops, parse) && m <= n <= |ops| && c in states[0].calendars
    ensures c in states[m].calendars && c in states[n].calendars
    ensures var log, token := LogOf(states[n].changes, c), states[m].calendars[c].syncSeq;
            && |log| == states[n].calendars[c].syncSeq && (forall k :: 0 <= k < |log| ==> log[k].seqNo == k + 1)
            && token <= |log|
            && Replay(NamesIn(states[m].objects, c), log[token..]) == NamesIn(states[n].objects, c)
  {
    RunKeepsConsistent(states, ops, m, parse);
    RunKeepsConsistent(states, ops, n, parse);
    assert Reached(states, 0, m, parse) && Reached(states, m, n, parse) && Reached(states, n, n, parse);
    LogBetween(states[m], states[n], c);
  }

  lemma LogBetween(earlier: Tables, later: Tables, c: nat)
    requires LogOk(earlier, c) && LogOk(later, c) && Extends(earlier, later)
    requires c in earlier.calendars && c in later.calendars
    ensures var log, token := LogOf(later.changes, c), earlier.calendars[c].syncSeq;
            token <= |log| && Replay(NamesIn(earlier.objects, c), log[token..]) == NamesIn(later.objects, c)
  {
    LogPrefix(earlier.changes, later.changes, c);
    var log, token := LogOf(later.changes, c), earlier.calendars[c].syncSeq;
    assert log == log[..token] + log[token..] && log[..token] == LogOf(earlier.changes, c);
    ReplayConcat({}, log[..token], log[token..]);
  }

  // ----- When a write commits, and what it reports otherwise -----

  /** Another object of the calendar has the UID. */
  ghost predicate HasUid(t: Tables, input: SaveInput, id: nat) {
    && id in t.objects && t.objects[id].calendarId == input.calendarId && t.objects[id].uid == input.parsed.uid
    && (input.existing.Some? ==> id != input.existing.value.id)
  }

  ghost predicate HasName(t: Tables, input: SaveInput, id: nat) {
    id in t.objects && t.objects[id].calendarId == input.calendarId && t.objects[id].name == input.name
  }

  /** Nothing stands against a save before the row is looked at: its calendar exists, and its UID is its own. */
  ghost predicate UidIsFree(t: Tables, input: SaveInput) {
    && input.calendarId in t.calendars
    && (input.existing.Some? ==> input.existing.value.row.uid == input.parsed.uid)
    && forall id: nat :: !HasUid(t, input, id)
  }

  function Saves(t: Tables, input: SaveInput): Result<Saved> {
    SaveOutcome(t, input).1
  }

  lemma UidFound(t: Tables, input: SaveInput, parse: string -> Parsed)
    requires Consistent(t, parse) && SaveFits(t, input, parse)
    requires input.existing.Some? ==> input.existing.value.row.uid == input.parsed.uid
    ensures var clash := FindByUid(t.objects, t.nextId, input.calendarId, input.parsed.uid);
            && (clash.Some? && (input.existing.None? || clash.value != input.existing.value.id)
                <==> exists id: nat :: HasUid(t, input, id))
            && forall id: nat :: HasUid(t, input, id) ==> clash == Some(id)
  {
    var clash := FindByUid(t.objects, t.nextId, input.calendarId, input.parsed.uid);
    forall id: nat | HasUid(t, input, id)
      ensures clash == Some(id)
    {
      assert RowOk(t, parse, id);
      assert clash.Some? ==> NoTwins(t.objects, clash.value, id);
    }
    if clash.Some? && (input.existing.None? || clash.value != input.existing.value.id) {
      assert HasUid(t, input, clash.value);
    }
  }

  /** What a save reports before it looks at its row: no such calendar; a UID that changed, named by the object's own
      URL; or one that another object has, named by that object's, unless it is the URL asked for. */
  lemma UidIsDecided(t: Tables, input: SaveInput, parse: string -> Parsed)
    requires Consistent(t, parse) && SaveFits(t, input, parse)
    ensures input.calendarId !in t.calendars ==> Saves(t, input) == Failure(NotFound)
    ensures input.calendarId in t.calendars && input.existing.Some?
            && input.existing.value.row.uid != input.parsed.uid ==>
              Saves(t, input) == Failure(UidConflict(input.existing.value.row.name))
    ensures input.calendarId in t.calendars
            && (input.existing.Some? ==> input.existing.value.row.uid == input.parsed.uid) ==>
              forall id: nat :: HasUid(t, input, id) ==>
                Saves(t, input) == Failure(if t.objects[id].name == input.name then ObjectChanged(input.name)
                                           else UidConflict(t.objects[id].name))
  {
    if input.existing.Some? ==> input.existing.value.row.uid == input.parsed.uid {
      UidFound(t, input, parse);
    }
  }

  /** A unique index's refusal is a UID conflict if by then another URL has the UID, else the URL was taken. */
  lemma RefusalIs(t: Tables, input: SaveInput, parse: string -> Parsed)
    requires Consistent(t, parse) && SaveFits(t, input, parse)
    requires input.existing.Some? ==> input.existing.value.row.uid == input.parsed.uid
    ensures forall id: nat :: HasUid(t, input, id) && t.objects[id].name != input.name ==>
              Refusal(t, input) == UidConflict(t.objects[id].name)
    ensures (forall id: nat :: HasUid(t, input, id) ==> t.objects[id].name == input.name) ==>
              Refusal(t, input) == ObjectChanged(input.name)
  {
    UidFound(t, input, parse);
  }

  /** An overwrite commits exactly if the row is there, unchanged where that was asked for, and both quotas have
      room. */
  lemma OverwriteIsDecided(t: Tables, input: SaveInput, parse: string -> Parsed)
    requires Consistent(t, parse) && SaveFits(t, input, parse) && UidIsFree(t, input) && input.existing.Some?
    ensures var id := input.existing.value.id;
            if id !in t.objects || (input.expectedEtag.Some? && t.objects[id].etag != input.expectedEtag.value) then
              Saves(t, input) == Failure(ObjectChanged(input.name))
            else
              var row, delta := t.objects[id], ByteLength(input.ics) - ByteLength(t.contents[id]);
              if !HasRoom(t.users, row.owner, delta) then Saves(t, input) == Failure(QuotaExceeded(UserQuota))
              else if !HasRoom(t.tenants, row.tenantId, delta) then
                Saves(t, input) == Failure(QuotaExceeded(TenantQuota))
              else Saves(t, input) == Success(Saved(false, id))
  {
    var id := input.existing.value.id;
    assert RowOk(t, parse, id);
    UidFound(t, input, parse);
    if id in t.objects {
      ChargeIsDecided(Recorded(t, input.calendarId, input.name, Modified).value, t.objects[id].owner, input.tenantId,
                      ByteLength(input.ics) - ByteLength(t.contents[id]));
    }
  }

  /** A create commits exactly if its owner exists, both quotas have room and the name is free. */
  lemma CreateIsDecided(t: Tables, input: SaveInput, parse: string -> Parsed)
    requires Consistent(t, parse) && SaveFits(t, input, parse) && UidIsFree(t, input) && input.existing.None?
    ensures var delta := ByteLength(input.ics);
            if input.owner !in t.users then Saves(t, input) == Failure(NotFound)
            else if !HasRoom(t.users, input.owner, delta) then Saves(t, input) == Failure(QuotaExceeded(UserQuota))
            else if !HasRoom(t.tenants, input.tenantId, delta) then
              Saves(t, input) == Failure(QuotaExceeded(TenantQuota))
            else if exists id: nat :: HasName(t, input, id) then Saves(t, input) == Failure(ObjectChanged(input.name))
            else Saves(t, input) == Success(Saved(true, t.nextId))
  {
    UidFound(t, input, parse);
    var r := Recorded(t, input.calendarId, input.name, Added).value;
    ChargeIsDecided(r, input.owner, input.tenantId, ByteLength(input.ics));
    if NameTaken(r.objects, input.calendarId, input.name) {
      var id :| id in r.objects && r.objects[id].calendarId == input.calendarId && r.objects[id].name == input.name;
      assert HasName(t, input, id);
    } else if id: nat :| HasName(t, input, id) {
      assert id in r.objects;
    }
  }

  /** A delete is refused only for a calendar that is gone; it finds nothing where the row is gone or changed. */
  lemma DeleteIsDecided(t: Tables, input: DeleteInput, parse: string -> Parsed)
    requires Consistent(t, parse) && DeleteFits(t, input)
    ensures var id := input.target.id;
            DeleteOutcome(t, input).1 ==
              if input.calendarId !in t.calendars then Failure(NotFound)
              else Success(id in t.objects
                           && (input.expectedEtag.Some? ==> t.objects[id].etag == input.expectedEtag.value))
  {
    assert RowOk(t, parse, input.target.id);
  }

  /** What a committed operation adds to the log: the calendar's next number, the name, and what happened to it. */
  lemma CommitIsLogged(t: Tables, op: Op, parse: string -> Parsed)
    requires Consistent(t, parse) && Fits(t, op, parse) && Commits(t, op)
    ensures var c := if op.Save? then op.save.calendarId else op.delete.calendarId;
            var name := if op.Save? then op.save.name else op.delete.target.row.name;
            var action := if op.Delete? then Deleted else if op.save.existing.Some? then Modified else Added;
            && c in t.calendars
            && After(t, op).changes == t.changes + [Change(c, t.calendars[c].syncSeq + 1, name, action)]
            && After(t, op).calendars[c].syncSeq == t.calendars[c].syncSeq + 1
  {
    match op
    case Save(input) =>
      if input.existing.Some? {
        OverwriteEffect(t, input, parse);
      } else {
        CreateEffect(t, input);
      }
    case Delete(input) => DeleteEffect(t, input, parse);
  }

  // ----- Guarded writes -----

  /** A write that must find row `id` with ETag `etag`. */
  predicate Guards(op: Op, id: nat, etag: string) {
    match op
    case Save(input) => input.existing.Some? && input.existing.value.id == id && input.expectedEtag == Some(etag)
    case Delete(input) => input.target.id == id && input.expectedEtag == Some(etag)
  }

  predicate Installs(op: Op, etag: string) {
    op.Save? && op.save.etag == etag
  }

  predicate HasEtag(t: Tables, id: nat, etag: string) {
    id in t.objects && t.objects[id].etag == etag
  }

  /** The operation is on row `id`. */
  predicate Targets(op: Op, id: nat) {
    match op
    case Save(input) => input.existing.Some? && input.existing.value.id == id
    case Delete(input) => input.target.id == id
  }

  /** What else a save of an existing object needs: its UID is unchanged, and both quotas have room. */
  ghost predicate Accepted(t: Tables, op: Op) {
    match op
    case Save(input) =>
      && input.existing.Some? && input.existing.value.row.uid == input.parsed.uid
      && input.existing.value.id in t.contents
      && var delta := ByteLength(input.ics) - ByteLength(t.contents[input.existing.value.id]);
         HasRoom(t.users, input.existing.value.row.owner, delta) && HasRoom(t.tenants, input.tenantId, delta)
    case Delete(input) => true
  }

  lemma GuardedSaveCommits(t: Tables, input: SaveInput, id: nat, etag: string, parse: string -> Parsed)
    requires Consistent(t, parse) && SaveFits(t, input, parse) && Guards(Save(input), id, etag)
    requires HasEtag(t, id, etag) && Accepted(t, Save(input))
    ensures Commits(t, Save(input))
  {
    assert RowOk(t, parse, id);
    var clash := FindByUid(t.objects, t.nextId, input.calendarId, input.parsed.uid);
    if clash.Some? {
      assert NoTwins(t.objects, clash.value, id);
    }
  }

  lemma GuardedDeleteCommits(t: Tables, input: DeleteInput, id: nat, etag: string, parse: string -> Parsed)
    requires Consistent(t, parse) && DeleteFits(t, input) && Guards(Delete(input), id, etag) && HasEtag(t, id, etag)
    ensures Commits(t, Delete(input))
  {
    assert RowOk(t, parse, id);
  }

  /** A guarded write commits exactly if the row has the ETag and the write is acceptable otherwise. */
  lemma GuardedCommit(t: Tables, op: Op, id: nat, etag: string, parse: string -> Parsed)
    requires Consistent(t, parse) && Fits(t, op, parse) && Guards(op, id, etag)
    ensures Commits(t, op) <==> HasEtag(t, id, etag) && Accepted(t, op)
  {
    match op
    case Save(input) =>
      if Commits(t, op) {
        OverwriteEffect(t, input, parse);
      } else if HasEtag(t, id, etag) && Accepted(t, op) {
        GuardedSaveCommits(t, input, id, etag, parse);
      }
    case Delete(input) =>
      if Commits(t, op) {
        DeleteEffect(t, input, parse);
      } else if HasEtag(t, id, etag) {
        GuardedDeleteCommits(t, input, id, etag, parse);
      }
  }

  /** What a committed write to a row leaves is the ETag it installs; nothing else changes a row's ETag. */
  lemma EtagAfter(t: Tables, op: Op, id: nat, etag: string, parse: string -> Parsed)
    requires Consistent(t, parse) && Fits(t, op, parse) && id < t.nextId
    ensures id < After(t, op).nextId
    ensures HasEtag(After(t, op), id, etag)
            <==> if Commits(t, op) && Targets(op, id) then Installs(op, etag) else HasEtag(t, id, etag)
  {
    if Commits(t, op) {
      match op
      case Save(input) =>
        if input.existing.Some? {
          OverwriteEffect(t, input, parse);
        } else {
          CreateEffect(t, input);
        }
      case Delete(input) => DeleteEffect(t, input, parse);
    }
  }

  /** Operation `k` of the run took effect on row `id`. */
  ghost predicate TouchedAt(states: seq<Tables>, ops: seq<Op>, id: nat, k: nat) {
    k < |ops| && k < |states| && Commits(states[k], ops[k]) && Targets(ops[k], id)
  }

  ghost function Touches(states: seq<Tables>, ops: seq<Op>, id: nat): nat -> bool {
    (k: nat) => TouchedAt(states, ops, id, k)
  }

  ghost function Puts(ops: seq<Op>, etag: string): nat -> bool {
    (k: nat) => k < |ops| && Installs(ops[k], etag)
  }

  /** `k` is the last before `n` to touch the row, and it puts the ETag. */
  ghost predicate LeftBy(touches: nat -> bool, puts: nat -> bool, k: nat, n: nat) {
    k < n && touches(k) && puts(k) && forall j :: k < j < n ==> !touches(j)
  }

  ghost predicate LeftFrom(touches: nat -> bool, puts: nat -> bool, m: nat, n: nat) {
    exists k :: m <= k && LeftBy(touches, puts, k, n)
  }

  lemma LeftAfterOneMore(touches: nat -> bool, puts: nat -> bool, m: nat, n: nat, next: nat)
    requires m <= n && next == n + 1
    ensures LeftFrom(touches, puts, m, next) <==> if touches(n) then puts(n) else LeftFrom(touches, puts, m, n)
  {
    if touches(n) && puts(n) {
      assert LeftBy(touches, puts, n, next);
    }
    if k :| m <= k && LeftBy(touches, puts, k, n) && !touches(n) {
      assert LeftBy(touches, puts, k, next);
    }
    if k :| m <= k && LeftBy(touches, puts, k, next) && !touches(n) {
      assert LeftBy(touches, puts, k, n);
    }
  }

  /** Of the operations from `m` up to state `n` that took effect on row `id`, the last installed the ETag. */
  ghost predicate PutBack(states: seq<Tables>, ops: seq<Op>, m: nat, n: nat, id: nat, etag: string) {
    LeftFrom(Touches(states, ops, id), Puts(ops, etag), m, n)
  }

  lemma EtagAfterStep(states: seq<Tables>, ops: seq<Op>, n: nat, id: nat, etag: string, parse: string -> Parsed)
    requires Interleaving(states, ops, parse) && n < |ops| && id < states[n].nextId
    ensures id < states[n + 1].nextId
    ensures HasEtag(states[n + 1], id, etag)
            <==> if Touches(states, ops, id)(n) then Puts(ops, etag)(n) else HasEtag(states[n], id, etag)
  {
    RunKeepsConsistent(states, ops, n, parse);
    assert Reached(states, n, n, parse) && StepAt(states, ops, n);
    EtagAfter(states[n], ops[n], id, etag, parse);
  }

  /** From a committed write to the row on, it has an ETag exactly if the last write to it installed that one. */
  lemma {:induction false} EtagIsThatOfLastWrite(states: seq<Tables>, ops: seq<Op>, m: nat, n: nat, id: nat,
                                                 etag: string, parse: string -> Parsed)
    requires Interleaving(states, ops, parse) && m < n <= |ops|
    requires Touches(states, ops, id)(m) && id < states[m].nextId
    ensures id < states[n].nextId
    ensures HasEtag(states[n], id, etag) <==> PutBack(states, ops, m, n, id, etag)
  {
    if n == m + 1 {
    } else {
      EtagIsThatOfLastWrite(states, ops, m, n - 1, id, etag, parse);
    }
    EtagAfterStep(states, ops, n - 1, id, etag, parse);
    LeftAfterOneMore(Touches(states, ops, id), Puts(ops, etag), m, n - 1, n);
  }

  /** Of two writers guarding on the same ETag of the same object the first has committed. The later one commits
      exactly if the last write to the object since then, that of the first included, put that very ETag back, and it
      is acceptable otherwise, as a delete always is. */
  lemma OneGuardedWriterWins(states: seq<Tables>, ops: seq<Op>, m: nat, n: nat, id: nat, etag: string,
                             parse: string -> Parsed)
    requires Interleaving(states, ops, parse) && m < n < |ops|
    requires Guards(ops[m], id, etag) && Guards(ops[n], id, etag) && Commits(states[m], ops[m])
    ensures Commits(states[n], ops[n]) <==> PutBack(states, ops, m, n, id, etag) && Accepted(states[n], ops[n])
  {
    RunKeepsConsistent(states, ops, m, parse);
    RunKeepsConsistent(states, ops, n, parse);
    assert Reached(states, m, m, parse) && Reached(states, n, n, parse);
    GuardedCommit(states[m], ops[m], id, etag, parse);
    assert RowOk(states[m], parse, id);
    EtagIsThatOfLastWrite(states, ops, m, n, id, etag, parse);
    GuardedCommit(states[n], ops[n], id, etag, parse);
  }

  /** Names and UIDs stay unique, and an object keeps its UID, name, calendar and owner for life. */
  lemma IdentitiesAreStable(states: seq<Tables>, ops: seq<Op>, m: nat, n: nat, id: nat, parse: string -> Parsed)
    requires Interleaving(states, ops, parse) && m <= n <= |ops|
    requires id in states[m].objects && id in states[n].objects
    ensures SameIdentity(states[m].objects[id], states[n].objects[id])
    ensures forall i, j :: NoTwins(states[n].objects, i, j)
  {
    RunKeepsConsistent(states, ops, n, parse);
    assert Reached(states, m, n, parse) && Reached(states, n, n, parse);
    assert RowOk(states[m], parse, id);
  }

  /** And then it can: a guarded save that installs the ETag it guards on, as one of unchanged content does,
      commits again. */
  lemma UnchangedContentWinsAgain(t: Tables, input: SaveInput, parse: string -> Parsed)
    requires Consistent(t, parse) && SaveFits(t, input, parse)
    requires input.existing.Some? && input.expectedEtag == Some(input.etag)
    requires Commits(t, Save(input))
    ensures Commits(After(t, Save(input)), Save(input))
  {
    var next, id := After(t, Save(input)), input.existing.value.id;
    OverwriteEffect(t, input, parse);
    OverwriteKeeps(t, input, parse);
    assert RowOk(next, parse, id);
    assert Recorded(next, input.calendarId, input.name, Modified).Success?;
    var clash := FindByUid(next.objects, next.nextId, input.calendarId, input.parsed.uid);
    if clash.Some? {
      assert NoTwins(next.objects, clash.value, id);
    }
  }

  // ----- Two writers that both win -----

  /** One object, which its owner stored. */
  function OneObject(row: Row): Tables {
    Tables(map[0 := row], map[0 := "x"], 1, map[row.calendarId := Calendar(1, row.tenantId)],
           [Change(row.calendarId, 1, row.name, Added)],
           map[row.owner := Account(1, None)], map[row.tenantId := Account(1, None)])
  }

  /** The same text once more, guarded by the ETag it has. */
  function SameAgain(row: Row): SaveInput {
    SaveInput(row.tenantId, row.calendarId, row.name, row.owner, "x", Parsed(row.uid, row.componentType, row.index),
              row.etag, Some(Snapshot(0, row)), Some(row.etag))
  }

  lemma OneObjectConsistent(row: Row, parse: string -> Parsed)
    requires parse("x") == Parsed(row.uid, row.componentType, row.index)
    ensures Consistent(OneObject(row), parse)
  {
    OneObjectLog(row);
  }

  lemma OneObjectLog(row: Row)
    ensures forall c :: LogOk(OneObject(row), c)
  {
    var t := OneObject(row);
    assert LogOf(t.changes[..0], row.calendarId) == [];
    assert t.changes == t.changes[..0] + [t.changes[0]];
    LogGrows(t.changes[..0], t.changes[0], row.calendarId);
    ReplayOne({}, [], t.changes[0]);
    assert 0 in t.objects && t.objects[0] == row;
    assert row.name in NamesIn(t.objects, row.calendarId);
    assert NamesIn(t.objects, row.calendarId) == {row.name};
  }

  lemma SameAgainCommits(row: Row, parse: string -> Parsed)
    requires parse("x") == Parsed(row.uid, row.componentType, row.index)
    ensures Commits(OneObject(row), Save(SameAgain(row)))
  {
    var t, input := OneObject(row), SameAgain(row);
    OneObjectConsistent(row, parse);
    var clash := FindByUid(t.objects, t.nextId, input.calendarId, input.parsed.uid);
    assert clash == Some(0);
  }

  /** Two requests save the text an object already has, both guarding on its ETag: both commit. */
  lemma TwoGuardedWritersWin(row: Row, parse: string -> Parsed)
    requires parse("x") == Parsed(row.uid, row.componentType, row.index)
    ensures var t, op := OneObject(row), Save(SameAgain(row));
            && Interleaving([t, After(t, op), After(After(t, op), op)], [op, op], parse)
            && Guards(op, 0, row.etag) && Commits(t, op) && Commits(After(t, op), op)
  {
    var t, op := OneObject(row), Save(SameAgain(row));
    var states, ops := [t, After(t, op), After(After(t, op), op)], [op, op];
    OneObjectConsistent(row, parse);
    SameAgainCommits(row, parse);
    UnchangedContentWinsAgain(t, op.save, parse);
    assert HasRow(states[0], op.save.existing.value);
    assert StepAt(states, ops, 0) && StepAt(states, ops, 1);
    assert CallAt(states, ops, 0, parse) && CallAt(states, ops, 1, parse);
  }

  // ----- Quota -----

  function OwnedBy(user: nat): Row -> bool {
    (row: Row) => row.owner == user
  }

  function InTenant(tenant: nat): Row -> bool {
    (row: Row) => row.tenantId == tenant
  }

  function Weight(objects: map<nat, Row>, contents: map<nat, string>, id: nat, of: Row -> bool): nat {
    if id in objects && id in contents && of(objects[id]) then ByteLength(contents[id]) else 0
  }

  /** The bytes of the selected objects' content. */
  function Bytes(objects: map<nat, Row>, contents: map<nat, string>, n: nat, of: Row -> bool): nat {
    if n == 0 then 0 else Bytes(objects, contents, n - 1, of) + Weight(objects, contents, n - 1, of)
  }

  /** Each user's counter is what the user's calendar objects weigh, each tenant's what the tenant's do,
      on top of what the other domains charge them (`userOther`, `tenantOther`). */
  ghost predicate Conserved(t: Tables, userOther: nat -> nat, tenantOther: nat -> nat) {
    && (forall u :: u in t.users ==>
          t.users[u].used == userOther(u) + Bytes(t.objects, t.contents, t.nextId, OwnedBy(u)))
    && (forall n :: n in t.tenants ==>
          t.tenants[n].used == tenantOther(n) + Bytes(t.objects, t.contents, t.nextId, InTenant(n)))
  }

  ghost predicate SameBut(a: Tables, b: Tables, id: nat) {
    forall i :: i != id ==>
      && (i in a.objects <==> i in b.objects) && (i in a.contents <==> i in b.contents)
      && (i in a.objects ==> SameIdentity(a.objects[i], b.objects[i]))
         && (i in a.contents ==> a.contents[i] == b.contents[i])
  }

  lemma {:induction false} BytesChange(a: Tables, b: Tables, n: nat, id: nat, of: Row -> bool)
    requires SameBut(a, b, id) && forall x, y :: SameIdentity(x, y) ==> of(x) == of(y)
    ensures Bytes(b.objects, b.contents, n, of) ==
            Bytes(a.objects, a.contents, n, of) +
            (if id < n then Weight(b.objects, b.contents, id, of) - Weight(a.objects, a.contents, id, of) else 0)
  {
    if n == 0 {
    } else {
      BytesChange(a, b, n - 1, id, of);
      assert n - 1 != id ==> Weight(b.objects, b.contents, n - 1, of) == Weight(a.objects, a.contents, n - 1, of);
    }
  }

  /** A transaction charges exactly the change of one object's weight, to its owner and its tenant. */
  ghost predicate ChargesChange(t: Tables, next: Tables, id: nat, row: Row) {
    && id < next.nextId && SameBut(t, next, id)
    && (id in t.objects ==> SameIdentity(t.objects[id], row))
       && (id in next.objects ==> SameIdentity(next.objects[id], row))
    && var delta := Weight(next.objects, next.contents, id, OwnedBy(row.owner))
                    - Weight(t.objects, t.contents, id, OwnedBy(row.owner));
       Adjusted(t.users, row.owner, delta) == Some(next.users)
         && Adjusted(t.tenants, row.tenantId, delta) == Some(next.tenants)
  }

  lemma {:induction false} NoBytesBeyond(t: Tables, n: nat, m: nat, of: Row -> bool)
    requires n <= m && forall id :: n <= id < m ==> id !in t.objects
    ensures Bytes(t.objects, t.contents, m, of) == Bytes(t.objects, t.contents, n, of)
  {
    if n == m {
    } else {
      NoBytesBeyond(t, n, m - 1, of);
    }
  }

  lemma AccountsFollow(t: Tables, next: Tables, id: nat, row: Row, of: Row -> bool)
    requires ChargesChange(t, next, id, row) && t.nextId <= next.nextId
    requires forall i :: t.nextId <= i ==> i !in t.objects
    requires forall x, y :: SameIdentity(x, y) ==> of(x) == of(y)
    ensures Bytes(next.objects, next.contents, next.nextId, of) ==
            Bytes(t.objects, t.contents, t.nextId, of) +
            (if !of(row) then 0
             else Weight(next.objects, next.contents, id, OwnedBy(row.owner))
                  - Weight(t.objects, t.contents, id, OwnedBy(row.owner)))
  {
    BytesChange(t, next, next.nextId, id, of);
    NoBytesBeyond(t, t.nextId, next.nextId, of);
  }

  lemma ChargeConserves(t: Tables, next: Tables, id: nat, row: Row, userOther: nat -> nat, tenantOther: nat -> nat)
    requires Conserved(t, userOther, tenantOther) && ChargesChange(t, next, id, row) && t.nextId <= next.nextId
    requires forall i :: t.nextId <= i ==> i !in t.objects
    ensures Conserved(next, userOther, tenantOther)
  {
    forall u | u in next.users
      ensures next.users[u].used == userOther(u) + Bytes(next.objects, next.contents, next.nextId, OwnedBy(u))
    {
      AccountsFollow(t, next, id, row, OwnedBy(u));
    }
    forall n | n in next.tenants
      ensures next.tenants[n].used == tenantOther(n) + Bytes(next.objects, next.contents, next.nextId, InTenant(n))
    {
      AccountsFollow(t, next, id, row, InTenant(n));
    }
  }

  lemma OverwriteTouchesOne(t: Tables, input: SaveInput, parse: string -> Parsed)
    requires Consistent(t, parse) && SaveFits(t, input, parse) && Written(t, input).Success? && input.existing.Some?
    ensures SameBut(t, Written(t, input).value.0, input.existing.value.id)
  {
    OverwriteEffect(t, input, parse);
  }

  lemma OverwriteCharges(t: Tables, input: SaveInput, parse: string -> Parsed)
    requires Consistent(t, parse) && SaveFits(t, input, parse) && Written(t, input).Success? && input.existing.Some?
    ensures var next, id := Written(t, input).value.0, input.existing.value.id;
            id in t.objects && ChargesChange(t, next, id, t.objects[id]) && t.nextId == next.nextId
  {
    OverwriteEffect(t, input, parse);
    OverwriteTouchesOne(t, input, parse);
    assert RowOk(t, parse, input.existing.value.id);
  }

  lemma CreateCharges(t: Tables, input: SaveInput, parse: string -> Parsed)
    requires Consistent(t, parse) && SaveFits(t, input, parse) && Written(t, input).Success? && input.existing.None?
    ensures var next := Written(t, input).value.0;
            t.nextId in next.objects && ChargesChange(t, next, t.nextId, next.objects[t.nextId])
              && t.nextId <= next.nextId
  {
    CreateEffect(t, input);
    assert RowOk(t, parse, t.nextId);
  }

  lemma DeleteCharges(t: Tables, input: DeleteInput, parse: string -> Parsed)
    requires Consistent(t, parse) && DeleteFits(t, input) && Removed(t, input).Success?
    ensures var next, id := Removed(t, input).value, input.target.id;
            id in t.objects && ChargesChange(t, next, id, t.objects[id]) && t.nextId == next.nextId
  {
    DeleteEffect(t, input, parse);
    assert RowOk(t, parse, input.target.id);
  }

  /** Every committed operation charges exactly the change of one object's weight. */
  lemma CommitCharges(t: Tables, op: Op, parse: string -> Parsed) returns (id: nat, row: Row)
    requires Consistent(t, parse) && Fits(t, op, parse) && Commits(t, op)
    ensures ChargesChange(t, After(t, op), id, row) && t.nextId <= After(t, op).nextId
  {
    match op
    case Save(input) =>
      if input.existing.Some? {
        OverwriteCharges(t, input, parse);
        id, row := input.existing.value.id, t.objects[input.existing.value.id];
      } else {
        CreateCharges(t, input, parse);
        id, row := t.nextId, After(t, op).objects[t.nextId];
      }
    case Delete(input) =>
      DeleteCharges(t, input, parse);
      id, row := input.target.id, t.objects[input.target.id];
  }

  lemma StepConserves(t: Tables, op: Op, parse: string -> Parsed, userOther: nat -> nat, tenantOther: nat -> nat)
    requires Consistent(t, parse) && Fits(t, op, parse) && Conserved(t, userOther, tenantOther)
    ensures Conserved(After(t, op), userOther, tenantOther)
  {
    if Commits(t, op) {
      var id, row := CommitCharges(t, op, parse);
      forall i | t.nextId <= i
        ensures i !in t.objects
      {
        assert RowOk(t, parse, i);
      }
      ChargeConserves(t, After(t, op), id, row, userOther, tenantOther);
    } else {
      StepKeepsConsistent(t, op, parse);
    }
  }

  /** By how many bytes a save grows its object. */
  function Growth(t: Tables, input: SaveInput): int {
    ByteLength(input.ics)
      - if input.existing.Some? && input.existing.value.id in t.contents
        then ByteLength(t.contents[input.existing.value.id])
        else 0
  }

  ghost predicate WithinLimit(accounts: map<nat, Account>, id: nat) {
    id in accounts && (accounts[id].limit.Some? ==> accounts[id].used <= accounts[id].limit.value)
  }

  lemma ChargedWithinLimit(accounts: map<nat, Account>, id: nat, delta: int)
    requires Adjusted(accounts, id, delta).Some? && delta > 0
    ensures HasRoom(accounts, id, delta)
    ensures accounts[id].used + delta >= 0 ==> WithinLimit(Adjusted(accounts, id, delta).value, id)
  {
  }

  /** Whoever a growing save is charged to had room for it, and is within the limit afterwards. */
  lemma GrowthHasRoom(t: Tables, input: SaveInput, parse: string -> Parsed)
    requires Consistent(t, parse) && SaveFits(t, input, parse) && Commits(t, Save(input)) && Growth(t, input) > 0
    ensures var next := After(t, Save(input));
            var owner := if input.existing.Some? then input.existing.value.row.owner else input.owner;
            && HasRoom(t.users, owner, Growth(t, input)) && HasRoom(t.tenants, input.tenantId, Growth(t, input))
            && (t.users[owner].used >= 0 ==> WithinLimit(next.users, owner))
            && (t.tenants[input.tenantId].used >= 0 ==> WithinLimit(next.tenants, input.tenantId))
  {
    var owner := if input.existing.Some? then input.existing.value.row.owner else input.owner;
    if input.existing.Some? {
      OverwriteEffect(t, input, parse);
      assert RowOk(t, parse, input.existing.value.id);
    } else {
      CreateEffect(t, input);
    }
    ChargedWithinLimit(t.users, owner, Growth(t, input));
    ChargedWithinLimit(t.tenants, input.tenantId, Growth(t, input));
  }

  /** So in any run a committed save that adds bytes leaves the two counters it charges within their limits. */
  lemma GrowthStaysWithinLimits(states: seq<Tables>, ops: seq<Op>, n: nat, parse: string -> Parsed,
                                userOther: nat -> nat, tenantOther: nat -> nat)
    requires Interleaving(states, ops, parse) && n < |ops| && Conserved(states[0], userOther, tenantOther)
    requires ops[n].Save? && Commits(states[n], ops[n]) && Growth(states[n], ops[n].save) > 0
    ensures var input := ops[n].save;
            var owner := if input.existing.Some? then input.existing.value.row.owner else input.owner;
            WithinLimit(states[n + 1].users, owner) && WithinLimit(states[n + 1].tenants, input.tenantId)
  {
    QuotaIsConserved(states, ops, n, parse, userOther, tenantOther);
    RunKeepsConsistent(states, ops, n, parse);
    assert Reached(states, n, n, parse) && StepAt(states, ops, n);
    GrowthHasRoom(states[n], ops[n].save, parse);
  }

  /** After any interleaving of creates, overwrites by any writer, deletes and failures, every counter
      is exactly what its objects weigh, and so never negative. */
  lemma {:induction false} QuotaIsConserved(states: seq<Tables>, ops: seq<Op>, n: nat, parse: string -> Parsed,
                                            userOther: nat -> nat, tenantOther: nat -> nat)
    requires Interleaving(states, ops, parse) && n <= |ops| && Conserved(states[0], userOther, tenantOther)
    ensures Conserved(states[n], userOther, tenantOther)
  {
    if n == 0 {
    } else {
      QuotaIsConserved(states, ops, n - 1, parse, userOther, tenantOther);
      StepConservesAt(states, ops, n - 1, parse, userOther, tenantOther);
    }
  }

  lemma StepConservesAt(states: seq<Tables>, ops: seq<Op>, n: nat, parse: string -> Parsed, userOther: nat -> nat,
                        tenantOther: nat -> nat)
    requires Interleaving(states, ops, parse) && n < |ops| && Conserved(states[n], userOther, tenantOther)
    ensures Conserved(states[n + 1], userOther, tenantOther)
  {
    RunKeepsConsistent(states, ops, n, parse);
    assert Reached(states, n, n, parse);
    StepConserves(states[n], ops[n], parse, userOther, tenantOther);
    assert StepAt(states, ops, n);
  }

  function SumOver(objects: map<nat, Row>, contents: map<nat, string>, n: nat, users: seq<nat>): nat {
    if users == [] then 0
    else SumOver(objects, contents, n, users[..|users| - 1]) + Bytes(objects, contents, n, OwnedBy(users[|users| - 1]))
  }

  /** The bytes of a tenant's objects are the sum over its users, if exactly the tenant's objects are owned by them. */
  lemma {:induction false} TenantBytesAreSum(objects: map<nat, Row>, contents: map<nat, string>, n: nat, tenant: nat,
                                             users: seq<nat>)
    requires forall i, j :: 0 <= i < j < |users| ==> users[i] != users[j]
    requires forall id :: id in objects ==> (objects[id].tenantId == tenant <==> objects[id].owner in users)
    ensures Bytes(objects, contents, n, InTenant(tenant)) == SumOver(objects, contents, n, users)
  {
    if n == 0 {
      NothingToSum(objects, contents, users);
    } else {
      TenantBytesAreSum(objects, contents, n - 1, tenant, users);
      SumOfOne(objects, contents, n, users);
      if n - 1 in objects {
        assert InTenant(tenant)(objects[n - 1]) <==> objects[n - 1].owner in users;
      }
    }
  }

  lemma {:induction false} NothingToSum(objects: map<nat, Row>, contents: map<nat, string>, users: seq<nat>)
    ensures SumOver(objects, contents, 0, users) == 0
  {
    if users == [] {
    } else {
      NothingToSum(objects, contents, users[..|users| - 1]);
    }
  }

  lemma {:induction false} SumOfOne(objects: map<nat, Row>, contents: map<nat, string>, n: nat, users: seq<nat>)
    requires n > 0 && forall i, j :: 0 <= i < j < |users| ==> users[i] != users[j]
    ensures SumOver(objects, contents, n, users) == SumOver(objects, contents, n - 1, users) +
            (if n - 1 in objects && n - 1 in contents && objects[n - 1].owner in users
             then ByteLength(contents[n - 1]) else 0)
  {
    if users == [] {
    } else {
      var front, u := users[..|users| - 1], users[|users| - 1];
      SumOfOne(objects, contents, n, front);
      assert u !in front;
      assert users == front + [u];
      assert n - 1 in objects ==> (OwnedBy(u)(objects[n - 1]) <==> objects[n - 1].owner == u);
    }
  }

  /** Every object belongs to the tenant of its owner. */
  ghost predicate InTheirTenants(t: Tables, tenantOf: nat -> nat) {
    forall id :: id in t.objects ==> t.objects[id].tenantId == tenantOf(t.objects[id].owner)
  }

  /** An object is created for a user of the calendar's tenant. */
  predicate CreatesInTenant(op: Op, tenantOf: nat -> nat) {
    op.Save? && op.save.existing.None? ==> op.save.tenantId == tenantOf(op.save.owner)
  }

  ghost predicate AreUsersOf(users: seq<nat>, t: Tables, tenant: nat, tenantOf: nat -> nat) {
    && (forall i, j :: 0 <= i < j < |users| ==> users[i] != users[j])
    && (forall u :: u in users <==> u in t.users && tenantOf(u) == tenant)
  }

  /** Objects stay in their owners' tenants, and accounts neither come nor go. */
  ghost predicate SettledIn(t: Tables, next: Tables, tenantOf: nat -> nat) {
    InTheirTenants(next, tenantOf) && next.users.Keys == t.users.Keys && next.tenants.Keys == t.tenants.Keys
  }

  lemma StepSettles(t: Tables, op: Op, parse: string -> Parsed, tenantOf: nat -> nat)
    requires Consistent(t, parse) && Fits(t, op, parse) && InTheirTenants(t, tenantOf) && CreatesInTenant(op, tenantOf)
    ensures SettledIn(t, After(t, op), tenantOf)
  {
    if Commits(t, op) {
      match op
      case Save(input) =>
        if input.existing.Some? {
          OverwriteEffect(t, input, parse);
        } else {
          CreateEffect(t, input);
        }
      case Delete(input) => DeleteEffect(t, input, parse);
    }
  }

  lemma {:induction false} RunSettles(states: seq<Tables>, ops: seq<Op>, n: nat, parse: string -> Parsed,
                                      tenantOf: nat -> nat)
    requires Interleaving(states, ops, parse) && n <= |ops| && InTheirTenants(states[0], tenantOf)
    requires forall k :: 0 <= k < |ops| ==> CreatesInTenant(ops[k], tenantOf)
    ensures SettledIn(states[0], states[n], tenantOf)
  {
    if n == 0 {
    } else {
      RunSettles(states, ops, n - 1, parse, tenantOf);
      RunKeepsConsistent(states, ops, n - 1, parse);
      assert Reached(states, n - 1, n - 1, parse) && StepAt(states, ops, n - 1);
      StepSettles(states[n - 1], ops[n - 1], parse, tenantOf);
    }
  }

  /** What the calendar objects add to the counters of these users. */
  function ChargedTo(t: Tables, users: seq<nat>, userOther: nat -> nat): int
    requires forall u :: u in users ==> u in t.users
  {
    if users == [] then 0
    else
      var n := |users| - 1;
      ChargedTo(t, users[..n], userOther) + t.users[users[n]].used - userOther(users[n])
  }

  lemma {:induction false} ChargesAreBytes(t: Tables, users: seq<nat>, userOther: nat -> nat, tenantOther: nat -> nat)
    requires Conserved(t, userOther, tenantOther) && forall u :: u in users ==> u in t.users
    ensures ChargedTo(t, users, userOther) == SumOver(t.objects, t.contents, t.nextId, users)
  {
    if users == [] {
    } else {
      ChargesAreBytes(t, users[..|users| - 1], userOther, tenantOther);
    }
  }

  /** In every reachable state, what the calendar objects add to a tenant's counter is the sum of what they add to
      the counters of its users. */
  lemma TenantIsSumOfUsers(states: seq<Tables>, ops: seq<Op>, n: nat, parse: string -> Parsed,
                           userOther: nat -> nat, tenantOther: nat -> nat, tenantOf: nat -> nat,
                           tenant: nat, users: seq<nat>)
    requires Interleaving(states, ops, parse) && n <= |ops| && Conserved(states[0], userOther, tenantOther)
    requires InTheirTenants(states[0], tenantOf) && forall k :: 0 <= k < |ops| ==> CreatesInTenant(ops[k], tenantOf)
    requires tenant in states[0].tenants && AreUsersOf(users, states[0], tenant, tenantOf)
    ensures tenant in states[n].tenants && forall u :: u in users ==> u in states[n].users
    ensures states[n].tenants[tenant].used - tenantOther(tenant) == ChargedTo(states[n], users, userOther)
  {
    var t := states[n];
    QuotaIsConserved(states, ops, n, parse, userOther, tenantOther);
    RunKeepsConsistent(states, ops, n, parse);
    RunSettles(states, ops, n, parse, tenantOf);
    assert Reached(states, n, n, parse);
    OwnersAreUsers(t, parse, tenantOf, tenant, users);
    TenantBytesAreSum(t.objects, t.contents, t.nextId, tenant, users);
    ChargesAreBytes(t, users, userOther, tenantOther);
  }

  lemma OwnersAreUsers(t: Tables, parse: string -> Parsed, tenantOf: nat -> nat, tenant: nat, users: seq<nat>)
    requires Consistent(t, parse) && InTheirTenants(t, tenantOf) && AreUsersOf(users, t, tenant, tenantOf)
    ensures forall id :: id in t.objects ==> (t.objects[id].tenantId == tenant <==> t.objects[id].owner in users)
  {
    forall id | id in t.objects
      ensures t.objects[id].owner in t.users
    {
      assert RowOk(t, parse, id);
    }
  }
}
