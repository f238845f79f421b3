/** The ACL engine (packages/core/src/acl/evaluate-privilege.ts, collect-aces.ts, privilege-aggregation.ts):
    first match wins over a resource's own entries and then its ancestors', and the batched form
    for the objects of one collection answers as the check of a single object does.

    The database returns rows in any order; what that may change is part of the results. */
module AccessControl {
  import opened Sequences
  import opened Wrappers

  // ----- Privileges -----

  datatype Privilege =
    | Read | Write | WriteProperties | WriteContent | Bind | Unbind | Unlock | ReadAcl | WriteAcl
    | ReadCurrentUserPrivilegeSet | All
    | ScheduleDeliver | ScheduleDeliverInvite | ScheduleDeliverReply
    | ScheduleSend | ScheduleSendInvite | ScheduleSendReply | ScheduleSendFreebusy
    | ReadFreeBusy

  const ALL_PRIVILEGES: seq<Privilege> := [
    Read, Write, WriteProperties, WriteContent, Bind, Unbind, Unlock, ReadAcl, WriteAcl, ReadCurrentUserPrivilegeSet,
      All
  ]

  const CALENDAR_PRIVILEGES: seq<Privilege> := ALL_PRIVILEGES + [ReadFreeBusy]

  function ExpandPrivilege(privilege: Privilege): seq<Privilege> {
    match privilege
    case All => ALL_PRIVILEGES
    case Write => [WriteProperties, WriteContent]
    case ScheduleDeliver => [ScheduleDeliverInvite, ScheduleDeliverReply]
    case ScheduleSend => [ScheduleSendInvite, ScheduleSendReply, ScheduleSendFreebusy]
    case _ => [privilege]
  }

  function ExpandCalendarPrivilege(privilege: Privilege): seq<Privilege> {
    match privilege
    case All => CALENDAR_PRIVILEGES
    case Read => [Read, ReadFreeBusy]
    case ReadFreeBusy => [ReadFreeBusy]
    case _ => ExpandPrivilege(privilege)
  }

  predicate PrivilegeSatisfies(granted: Privilege, requested: Privilege) {
    requested in ExpandPrivilege(granted)
  }

  predicate CalendarPrivilegeSatisfies(granted: Privilege, requested: Privilege) {
    requested in ExpandCalendarPrivilege(granted)
  }

  /** Section 6.1.1 of RFC 4791: free/busy reading comes with `read` and `all`, and can be granted alone. */
  lemma FreeBusyAggregation(granted: Privilege, requested: Privilege)
    ensures CalendarPrivilegeSatisfies(granted, ReadFreeBusy) <==> granted in {Read, All, ReadFreeBusy}
    ensures CalendarPrivilegeSatisfies(ReadFreeBusy, requested) <==> requested == ReadFreeBusy
  {
    assert CALENDAR_PRIVILEGES[11] == ReadFreeBusy;
  }

  lemma InAppended(s: seq<Privilege>, x: Privilege, y: Privilege)
    ensures y in s + [x] <==> y in s || y == x
  {
  }

  /** Apart from it, a calendar's privileges cover what the shared ones do. */
  lemma CalendarPrivilegesExtendShared(granted: Privilege, requested: Privilege)
    requires requested != ReadFreeBusy
    ensures CalendarPrivilegeSatisfies(granted, requested) <==> PrivilegeSatisfies(granted, requested)
  {
    if granted == All {
      InAppended(ALL_PRIVILEGES, ReadFreeBusy, requested);
    }
  }

  /** `all` covers the eleven privileges of the shared vocabulary, and nothing of scheduling. */
  lemma AllAggregation(requested: Privilege)
    ensures PrivilegeSatisfies(All, requested) <==>
              requested !in {ScheduleDeliver, ScheduleDeliverInvite, ScheduleDeliverReply, ScheduleSend,
                             ScheduleSendInvite, ScheduleSendReply, ScheduleSendFreebusy, ReadFreeBusy}
  {
    assert ALL_PRIVILEGES[0] == Read && ALL_PRIVILEGES[1] == Write && ALL_PRIVILEGES[2] == WriteProperties;
    assert ALL_PRIVILEGES[3] == WriteContent && ALL_PRIVILEGES[4] == Bind && ALL_PRIVILEGES[5] == Unbind;
    assert ALL_PRIVILEGES[6] == Unlock && ALL_PRIVILEGES[7] == ReadAcl && ALL_PRIVILEGES[8] == WriteAcl;
    assert ALL_PRIVILEGES[9] == ReadCurrentUserPrivilegeSet && ALL_PRIVILEGES[10] == All;
  }

  /** `write` covers the writing of properties and content, but neither itself nor `write-acl`. */
  lemma WriteAggregation(requested: Privilege)
    ensures PrivilegeSatisfies(Write, requested) <==> requested == WriteProperties || requested == WriteContent
  {
  }

  /** The scheduling aggregates cover their parts (section 6 of RFC 6638), but not themselves. */
  lemma SchedulingAggregation(requested: Privilege)
    ensures PrivilegeSatisfies(ScheduleDeliver, requested)
            <==> requested == ScheduleDeliverInvite || requested == ScheduleDeliverReply
    ensures PrivilegeSatisfies(ScheduleSend, requested)
            <==> requested == ScheduleSendInvite || requested == ScheduleSendReply || requested == ScheduleSendFreebusy
  {
  }

  /** Any other privilege covers itself alone. */
  lemma ElementaryPrivilege(granted: Privilege, requested: Privilege)
    requires granted != All && granted != Write && granted != ScheduleDeliver && granted != ScheduleSend
    ensures PrivilegeSatisfies(granted, requested) <==> requested == granted
  {
  }

  // ----- Entries -----

  datatype GrantDeny = Grant | Deny

  datatype Ace = Ace(id: nat, resourceId: nat, principalId: nat, privilege: Privilege, grantDeny: GrantDeny,
                     position: int)

  datatype CollectedAce = CollectedAce(ace: Ace, inherited: bool, inheritedFrom: Option<nat>)

  predicate ByPosition(a: Ace, b: Ace) {
    a.position <= b.position
  }

  lemma ByPositionIsOrder()
    ensures TotalPreorder(ByPosition)
  {
  }

  function Direct(aces: seq<Ace>): (collected: seq<CollectedAce>)
    ensures |collected| == |aces| && forall i :: 0 <= i < |aces| ==> collected[i] == CollectedAce(aces[i], false, None)
  {
    seq(|aces|, (i: int) requires 0 <= i < |aces| => CollectedAce(aces[i], false, None))
  }

  function Inherited(aces: seq<Ace>, from: nat): (collected: seq<CollectedAce>)
    ensures |collected| == |aces| && forall i :: 0 <= i < |aces| ==>
              collected[i] == CollectedAce(aces[i], true, Some(from))
  {
    seq(|aces|, (i: int) requires 0 <= i < |aces| => CollectedAce(aces[i], true, Some(from)))
  }

  // ----- The inheritance walk -----

  /** The collections from `current` up that the walk visits: until there is no parent or one was visited
      before; `None` if a parent id names no collection. */
  function Chain(parents: map<nat, Option<nat>>, current: Option<nat>, visited: set<nat>): Option<seq<nat>>
    decreases parents.Keys - visited
  {
    if current.None? || current.value in visited then Some([])
    else if current.value !in parents then None
    else
      match Chain(parents, parents[current.value], visited + {current.value})
      case None => None
      case Some(rest) => Some([current.value] + rest)
  }

  function ChainAces(chain: seq<nat>, acesOf: nat -> seq<Ace>): seq<CollectedAce> {
    if chain == [] then []
    else Inherited(StableSort(ByPosition, acesOf(chain[0])), chain[0]) + ChainAces(chain[1..], acesOf)
  }

  /** `collectAces`: `None` stands for the error of a parent that does not exist. */
  method CollectAces(ownAces: seq<Ace>, start: Option<nat>, acesOf: nat -> seq<Ace>, parents: map<nat, Option<nat>>)
      returns (collected: Option<seq<CollectedAce>>)
    ensures Chain(parents, start, {}).None? ==> collected == None
    ensures Chain(parents, start, {}).Some? ==>
              collected
                == Some(Direct(StableSort(ByPosition, ownAces)) + ChainAces(Chain(parents, start, {}).value, acesOf))
  {
    var direct := Direct(StableSort(ByPosition, ownAces));
    var inherited: seq<CollectedAce>, visited: set<nat>, current := [], {}, start;
    while current.Some? && current.value !in visited
      invariant visited <= parents.Keys
      invariant Chain(parents, start, {}).None? <==> Chain(parents, current, visited).None?
      invariant Chain(parents, start, {}).Some? ==>
                  ChainAces(Chain(parents, start, {}).value, acesOf)
                    == inherited + ChainAces(Chain(parents, current, visited).value, acesOf)
      decreases parents.Keys - visited
    {
      var id := current.value;
      ghost var rest := Chain(parents, current, visited);
      if id !in parents {
        return None;
      }
      var sorted := StableSort(ByPosition, acesOf(id));
      inherited := inherited + Inherited(sorted, id);
      visited := visited + {id};
      current := parents[id];
      assert rest.Some? ==> rest.value[1..] == Chain(parents, current, visited).value;
    }
    assert inherited + [] == inherited;
    return Some(direct + inherited);
  }

  /** The `k`th collection above `start` in the parent graph, however often it has come round. */
  function Ancestor(parents: map<nat, Option<nat>>, start: Option<nat>, k: nat): Option<nat>
    decreases k
  {
    if k == 0 then start
    else if start.None? || start.value !in parents then None
    else Ancestor(parents, parents[start.value], k - 1)
  }

  /** Each collection of a chain is followed by its parent, none occurs twice, and none was visited before. */
  ghost predicate Climbs(parents: map<nat, Option<nat>>, chain: seq<nat>, visited: set<nat>) {
    && Distinct(chain)
    && (forall i :: 0 <= i < |chain| ==> chain[i] in parents && chain[i] !in visited)
    && (forall i :: 0 < i < |chain| ==> parents[chain[i - 1]] == Some(chain[i]))
  }

  /** Why a chain ends: there is no parent, or it was visited. */
  ghost predicate Ends(parents: map<nat, Option<nat>>, chain: seq<nat>, current: Option<nat>, visited: set<nat>) {
    if chain == [] then Stops(current, visited)
    else
      var last := chain[|chain| - 1];
      last in parents && Stops(parents[last], visited + Members(chain))
  }

  ghost function Members(chain: seq<nat>): set<nat> {
    set c | c in chain
  }

  lemma ChainCons(parents: map<nat, Option<nat>>, id: nat, rest: seq<nat>, visited: set<nat>)
    requires id in parents && id !in visited && (rest != [] ==> parents[id] == Some(rest[0]))
    requires Climbs(parents, rest, visited + {id}) && Ends(parents, rest, parents[id], visited + {id})
    ensures Climbs(parents, [id] + rest, visited) && Ends(parents, [id] + rest, Some(id), visited)
  {
    var chain := [id] + rest;
    assert forall i :: 1 <= i < |chain| ==> chain[i] == rest[i - 1];
    assert visited + {id} + Members(rest) == visited + Members(chain);
    assert rest == [] ==> visited + {id} == visited + Members(chain);
  }

  /** On any parent graph, cyclic ones included, the walk lists the nearest ancestor first, each following by
      its parent, none twice, until there is no parent or one has been listed. */
  lemma {:induction false} ChainClimbs(parents: map<nat, Option<nat>>, current: Option<nat>, visited: set<nat>)
    requires Chain(parents, current, visited).Some?
    ensures var chain := Chain(parents, current, visited).value;
            && Climbs(parents, chain, visited) && Ends(parents, chain, current, visited)
            && (chain != [] ==> Some(chain[0]) == current)
    decreases parents.Keys - visited
  {
    if current.None? || current.value in visited {
    } else {
      var id := current.value;
      ChainClimbs(parents, parents[id], visited + {id});
      ChainCons(parents, id, Chain(parents, parents[id], visited + {id}).value, visited);
    }
  }

  predicate Stops(parent: Option<nat>, visited: set<nat>) {
    parent.None? || parent.value in visited
  }

  /** ... and misses no collection that can be reached by going up. */
  lemma {:induction false} ChainIsComplete(parents: map<nat, Option<nat>>, start: Option<nat>, k: nat)
    requires Chain(parents, start, {}).Some? && Ancestor(parents, start, k).Some?
    ensures Ancestor(parents, start, k).value in Chain(parents, start, {}).value
  {
    ChainClimbs(parents, start, {});
    var chain := Chain(parents, start, {}).value;
    if k > 0 {
      var i := ReachedAt(parents, start, k);
    } else {
      assert chain[0] == start.value;
    }
  }

  lemma {:induction false} ReachedAt(parents: map<nat, Option<nat>>, start: Option<nat>, k: nat) returns (i: nat)
    requires Chain(parents, start, {}).Some? && Ancestor(parents, start, k).Some?
    ensures i < |Chain(parents, start, {}).value|
    ensures Chain(parents, start, {}).value[i] == Ancestor(parents, start, k).value
  {
    ChainClimbs(parents, start, {});
    var chain := Chain(parents, start, {}).value;
    if k == 0 {
      i := 0;
    } else {
      AncestorStep(parents, start, k - 1);
      var j := ReachedAt(parents, start, k - 1);
      if j + 1 < |chain| {
        i := j + 1;
        assert parents[chain[i - 1]] == Some(chain[i]);
      } else {
        assert parents[chain[j]].value in chain;
        i :| 0 <= i < |chain| && chain[i] == parents[chain[j]].value;
      }
    }
  }

  lemma {:induction false} AncestorStep(parents: map<nat, Option<nat>>, start: Option<nat>, k: nat)
    requires Ancestor(parents, start, k + 1).Some?
    ensures Ancestor(parents, start, k).Some? && Ancestor(parents, start, k).value in parents
    ensures Ancestor(parents, start, k + 1) == parents[Ancestor(parents, start, k).value]
    decreases k
  {
    if k == 0 {
    } else {
      AncestorStep(parents, parents[start.value], k - 1);
    }
  }

  // ----- Evaluation -----

  /** Whom an entry may name, what is asked for, and how privileges cover one another. */
  datatype Question = Question(matching: set<nat>, requested: Privilege, satisfies: (Privilege, Privilege) -> bool)

  predicate Applies(ace: Ace, q: Question) {
    ace.principalId in q.matching && q.satisfies(ace.privilege, q.requested)
  }

  /** `evaluateAces`: the first entry that applies decides, and none at all is a denial. */
  function EvaluateAces(aces: seq<CollectedAce>, q: Question): bool {
    if aces == [] then false
    else if Applies(aces[0].ace, q) then aces[0].ace.grantDeny == Grant
    else EvaluateAces(aces[1..], q)
  }

  function FirstThatApplies(aces: seq<Ace>, q: Question): Option<GrantDeny> {
    if aces == [] then None
    else if Applies(aces[0], q) then Some(aces[0].grantDeny)
    else FirstThatApplies(aces[1..], q)
  }

  /** What the entries of one resource decide, if anything. */
  function Decision(level: seq<Ace>, q: Question): Option<GrantDeny> {
    FirstThatApplies(StableSort(ByPosition, level), q)
  }

  /** The nearest level with any entry that applies decides. */
  function NearestDecides(levels: seq<seq<Ace>>, q: Question): bool {
    if levels == [] then false
    else
      match Decision(levels[0], q)
      case Some(d) => d == Grant
      case None => NearestDecides(levels[1..], q)
  }

  lemma {:induction false} EvaluateFront(front: seq<CollectedAce>, aces: seq<Ace>, back: seq<CollectedAce>, q: Question)
    requires |front| == |aces| && forall i :: 0 <= i < |front| ==> front[i].ace == aces[i]
    ensures EvaluateAces(front + back, q) ==
            match FirstThatApplies(aces, q) case Some(d) => d == Grant case None => EvaluateAces(back, q)
  {
    if front == [] {
      assert front + back == back;
    } else {
      assert (front + back)[1..] == front[1..] + back;
      EvaluateFront(front[1..], aces[1..], back, q);
    }
  }

  function Levels(chain: seq<nat>, acesOf: nat -> seq<Ace>): seq<seq<Ace>> {
    if chain == [] then [] else [acesOf(chain[0])] + Levels(chain[1..], acesOf)
  }

  lemma {:induction false} ChainEvaluates(chain: seq<nat>, acesOf: nat -> seq<Ace>, q: Question)
    ensures EvaluateAces(ChainAces(chain, acesOf), q) == NearestDecides(Levels(chain, acesOf), q)
  {
    if chain == [] {
    } else {
      var sorted := StableSort(ByPosition, acesOf(chain[0]));
      ChainEvaluates(chain[1..], acesOf, q);
      EvaluateFront(Inherited(sorted, chain[0]), sorted, ChainAces(chain[1..], acesOf), q);
      assert Levels(chain, acesOf)[1..] == Levels(chain[1..], acesOf);
    }
  }

  /** Section 6 of RFC 3744, as the repository reads it: evaluating the combined list asks the resource itself,
      then its ancestors from the nearest on, and stops at the first level that has anything to say. */
  lemma CollectedListAsksNearestFirst(own: seq<Ace>, chain: seq<nat>, acesOf: nat -> seq<Ace>, q: Question)
    ensures EvaluateAces(Direct(StableSort(ByPosition, own)) + ChainAces(chain, acesOf), q)
            == NearestDecides([own] + Levels(chain, acesOf), q)
  {
    var sorted := StableSort(ByPosition, own);
    ChainEvaluates(chain, acesOf, q);
    EvaluateFront(Direct(sorted), sorted, ChainAces(chain, acesOf), q);
    assert ([own] + Levels(chain, acesOf))[1..] == Levels(chain, acesOf);
  }

  // ----- The order of rows -----

  /** `a` is one of the entries with the lowest position among those that apply. */
  ghost predicate Lowest(level: seq<Ace>, a: Ace, q: Question) {
    a in level && Applies(a, q) && forall b :: b in level && Applies(b, q) ==> a.position <= b.position
  }

  /** The lowest entries that apply do not contradict one another. */
  ghost predicate Unambiguous(level: seq<Ace>, q: Question) {
    forall a, b :: Lowest(level, a, q) && Lowest(level, b, q) ==> a.grantDeny == b.grantDeny
  }

  lemma {:induction false} FirstIsLowest(sorted: seq<Ace>, q: Question)
    requires Ordered(ByPosition, sorted)
    ensures FirstThatApplies(sorted, q).None? ==> forall a :: a in sorted ==> !Applies(a, q)
    ensures FirstThatApplies(sorted, q).Some? ==>
              exists a :: Lowest(sorted, a, q) && a.grantDeny == FirstThatApplies(sorted, q).value
  {
    if sorted == [] {
    } else {
      assert sorted == [sorted[0]] + sorted[1..];
      if Applies(sorted[0], q) {
        forall b | b in sorted
          ensures sorted[0].position <= b.position
        {
          var k :| 0 <= k < |sorted| && sorted[k] == b;
          assert k > 0 ==> ByPosition(sorted[0], sorted[k]);
        }
        assert Lowest(sorted, sorted[0], q);
      } else {
        FirstIsLowest(sorted[1..], q);
        if FirstThatApplies(sorted, q).Some? {
          var a :| Lowest(sorted[1..], a, q) && a.grantDeny == FirstThatApplies(sorted[1..], q).value;
          assert Lowest(sorted, a, q);
        }
      }
    }
  }

  /** What a level decides is what one of its lowest entries that apply says. */
  lemma DecisionIsLowest(level: seq<Ace>, q: Question)
    ensures Decision(level, q).None? <==> forall a :: a in level ==> !Applies(a, q)
    ensures Decision(level, q).Some? ==> exists a :: Lowest(level, a, q) && a.grantDeny == Decision(level, q).value
  {
    ByPositionIsOrder();
    SortOrders(ByPosition, level);
    SortMembers(ByPosition, level);
    FirstIsLowest(StableSort(ByPosition, level), q);
    if Decision(level, q).Some? {
      var a :| Lowest(StableSort(ByPosition, level), a, q) && a.grantDeny == Decision(level, q).value;
      assert Lowest(level, a, q);
    }
  }

  lemma OrderDoesNotMatter(a: seq<Ace>, b: seq<Ace>, q: Question)
    requires Unambiguous(a, q) && forall x :: x in a <==> x in b
    ensures Decision(a, q) == Decision(b, q)
  {
    DecisionIsLowest(a, q);
    DecisionIsLowest(b, q);
    if Decision(a, q).Some? && Decision(b, q).Some? {
      var x :| Lowest(a, x, q) && x.grantDeny == Decision(a, q).value;
      var y :| Lowest(b, y, q) && y.grantDeny == Decision(b, q).value;
      assert Lowest(a, y, q);
    }
  }

  /** The database's order of rows shows exactly where two entries tie and disagree: then, and only then,
      some order of the same rows decides otherwise than another. */
  lemma OrderMattersExactlyForTies(level: seq<Ace>, q: Question)
    ensures Unambiguous(level, q) <==>
            forall a, b :: multiset(a) == multiset(level) && multiset(b) == multiset(level) ==>
              Decision(a, q) == Decision(b, q)
  {
    if Unambiguous(level, q) {
      forall a, b | multiset(a) == multiset(level) && multiset(b) == multiset(level)
        ensures Decision(a, q) == Decision(b, q)
      {
        SameMembers(level, a);
        SameMembers(level, b);
        OrderDoesNotMatter(level, a, q);
        OrderDoesNotMatter(level, b, q);
      }
    } else {
      var x, y :| Lowest(level, x, q) && Lowest(level, y, q) && x.grantDeny != y.grantDeny;
      var a := MovedToFront(level, x);
      var b := MovedToFront(level, y);
      FrontDecides(level, a, x, q);
      FrontDecides(level, b, y, q);
    }
  }

  lemma SameMembers(a: seq<Ace>, b: seq<Ace>)
    requires multiset(a) == multiset(b)
    ensures forall x :: x in a <==> x in b
  {
    forall x
      ensures x in a <==> x in b
    {
      assert x in a <==> x in multiset(a);
      assert x in b <==> x in multiset(b);
    }
  }

  lemma MovedToFront(level: seq<Ace>, x: Ace) returns (a: seq<Ace>)
    requires x in level
    ensures a != [] && a[0] == x && multiset(a) == multiset(level)
  {
    var i :| 0 <= i < |level| && level[i] == x;
    a := [x] + level[..i] + level[i + 1..];
    assert level == level[..i] + [x] + level[i + 1..];
  }

  lemma FrontDecides(level: seq<Ace>, a: seq<Ace>, x: Ace, q: Question)
    requires a != [] && a[0] == x && multiset(a) == multiset(level) && Lowest(level, x, q)
    ensures Decision(a, q) == Some(x.grantDeny)
  {
    SameMembers(level, a);
    var rest := StableSort(ByPosition, a[1..]);
    ByPositionIsOrder();
    SortMembers(ByPosition, a[1..]);
    assert forall b :: b in rest ==> b in a;
    InsertedBeforeTies(x, rest, q);
  }

  /** Everything a stable insertion leaves before `x` has a lower position, and so does not apply. */
  lemma {:induction false} InsertedBeforeTies(x: Ace, s: seq<Ace>, q: Question)
    requires Applies(x, q) && forall b :: b in s && Applies(b, q) ==> x.position <= b.position
    ensures FirstThatApplies(Insert(ByPosition, x, s), q) == Some(x.grantDeny)
  {
    if s == [] || ByPosition(x, s[0]) {
    } else {
      assert s[0] in s && !Applies(s[0], q);
      InsertedBeforeTies(x, s[1..], q);
      assert ([s[0]] + Insert(ByPosition, x, s[1..]))[1..] == Insert(ByPosition, x, s[1..]);
    }
  }

  // ----- One object, and many -----

  datatype SpecialKind = Authenticated | Everyone | Owner

  datatype Special = Special(id: nat, kind: SpecialKind)

  /** Who is asking: the principal, its groups (direct or not) and the tenant's special principals. */
  datatype Requester = Requester(id: nat, groups: set<nat>, specials: seq<Special>)

  function MatchingPrincipalIds(r: Requester, resourceOwner: nat): set<nat> {
    {r.id} + r.groups + (set s | s in r.specials && (s.kind != Owner || r.id == resourceOwner) :: s.id)
  }

  datatype Object = Object(id: nat, owner: nat)

  /** One check or selection: who asks, of which collection, for what. */
  datatype Request = Request(
    requester: Requester, collection: nat, requested: Privilege, satisfies: (Privilege, Privilege) -> bool)
  {
    function Of(o: Object): Question {
      Question(MatchingPrincipalIds(requester, o.owner), requested, satisfies)
    }
  }

  /** The entry names the requester, one of its groups, or a special principal that stands for it: anyone is
      authenticated and among all, and the owner is who owns the object. */
  ghost predicate Names(a: Ace, r: Requester, o: Object) {
    || a.principalId == r.id
    || a.principalId in r.groups
    || exists s :: s in r.specials && s.id == a.principalId && StandsFor(s.kind, r, o)
  }

  predicate StandsFor(kind: SpecialKind, r: Requester, o: Object) {
    match kind
    case Authenticated => true
    case Everyone => true
    case Owner => o.owner == r.id
  }

  /** Such an entry is about the request if its privilege covers what is asked for. */
  ghost predicate IsAbout(a: Ace, q: Request, o: Object) {
    Names(a, q.requester, o) && q.satisfies(a.privilege, q.requested)
  }

  lemma AppliesWhereNamed(a: Ace, q: Request, o: Object)
    ensures Applies(a, q.Of(o)) <==> IsAbout(a, q, o)
  {
    assert forall s :: s in q.requester.specials ==>
                         (s.kind != Owner || q.requester.id == o.owner <==> StandsFor(s.kind, q.requester, o));
  }

  /** What is granted or denied to the owner is about those who own the object, and no one else. */
  lemma OwnerEntryIsForTheOwner(a: Ace, q: Request, o: Object)
    requires a.principalId != q.requester.id && a.principalId !in q.requester.groups
    requires exists s :: s in q.requester.specials && s.id == a.principalId
    requires forall s :: s in q.requester.specials && s.id == a.principalId ==> s.kind == Owner
    ensures Applies(a, q.Of(o)) <==> o.owner == q.requester.id && q.satisfies(a.privilege, q.requested)
  {
    AppliesWhereNamed(a, q, o);
  }

  /** Of the entries about the request `a` has the lowest position. */
  ghost predicate LowestAbout(level: seq<Ace>, a: Ace, q: Request, o: Object) {
    a in level && IsAbout(a, q, o) && forall b :: b in level && IsAbout(b, q, o) ==> a.position <= b.position
  }

  /** The object's entries decide if any is about the request, else its collection's, else nothing allows it; and of a
      level's entries one of the lowest does. */
  ghost predicate DecidedBy(own: seq<Ace>, inherited: seq<Ace>, q: Request, o: Object, allowed: bool) {
    if exists a :: a in own && IsAbout(a, q, o) then
      exists a :: LowestAbout(own, a, q, o) && allowed == (a.grantDeny == Grant)
    else if exists a :: a in inherited && IsAbout(a, q, o) then
      exists a :: LowestAbout(inherited, a, q, o) && allowed == (a.grantDeny == Grant)
    else !allowed
  }

  lemma LevelDecides(level: seq<Ace>, q: Request, o: Object)
    ensures Decision(level, q.Of(o)).Some? <==> exists a :: a in level && IsAbout(a, q, o)
    ensures Decision(level, q.Of(o)).Some? ==>
              exists a :: LowestAbout(level, a, q, o) && a.grantDeny == Decision(level, q.Of(o)).value
  {
    DecisionIsLowest(level, q.Of(o));
    forall a
      ensures Applies(a, q.Of(o)) <==> IsAbout(a, q, o)
    {
      AppliesWhereNamed(a, q, o);
    }
    if Decision(level, q.Of(o)).Some? {
      var a :| Lowest(level, a, q.Of(o)) && a.grantDeny == Decision(level, q.Of(o)).value;
      assert LowestAbout(level, a, q, o);
    }
  }

  lemma NearestIsDecidedBy(own: seq<Ace>, inherited: seq<Ace>, q: Request, o: Object)
    ensures DecidedBy(own, inherited, q, o, NearestDecides([own, inherited], q.Of(o)))
  {
    TwoLevels(own, inherited, q.Of(o));
    LevelDecides(own, q, o);
    LevelDecides(inherited, q, o);
  }

  // ----- The database's rows -----

  function Of(id: nat): Ace -> bool {
    (a: Ace) => a.resourceId == id
  }

  function In(ids: seq<nat>): Ace -> bool {
    (a: Ace) => a.resourceId in ids
  }

  function RowsOf(table: seq<Ace>, id: nat): seq<Ace> {
    Filter(Of(id), table)
  }

  /** `findBy`: the rows of the given resources in an order of the database's own, which no query asks for. */
  type Lookup = seq<nat> -> seq<Ace>

  /** Each row of those resources once, whatever the order. */
  ghost predicate Answers(rows: Lookup, table: seq<Ace>) {
    forall ids :: multiset(rows(ids)) == multiset(Filter(In(ids), table))
  }

  /** The order of one resource's rows is the same whichever query returns them. */
  ghost predicate SameOrder(single: Lookup, batched: Lookup) {
    forall ids, id :: id in ids ==> Filter(Of(id), batched(ids)) == single([id])
  }

  ghost predicate DistinctIds(objects: seq<Object>) {
    forall i, j :: 0 <= i < j < |objects| ==> objects[i].id != objects[j].id
  }

  lemma LookupOfOne(rows: Lookup, table: seq<Ace>, id: nat)
    requires Answers(rows, table)
    ensures multiset(rows([id])) == multiset(RowsOf(table, id))
  {
    FilterAgrees(In([id]), Of(id), table);
  }

  lemma {:induction false} FilterWithin(ids: seq<nat>, id: nat, table: seq<Ace>)
    requires id in ids
    ensures Filter(Of(id), Filter(In(ids), table)) == RowsOf(table, id)
  {
    if table == [] {
    } else {
      FilterWithin(ids, id, table[1..]);
      FilterCons(Of(id), table[0], Filter(In(ids), table[1..]));
    }
  }

  /** What the rows of one resource amount to inside a larger answer. */
  lemma LookupAmong(rows: Lookup, table: seq<Ace>, ids: seq<nat>, id: nat)
    requires Answers(rows, table)
    ensures id in ids ==> multiset(Filter(Of(id), rows(ids))) == multiset(RowsOf(table, id))
    ensures id !in ids ==> Filter(Of(id), rows(ids)) == []
  {
    var whole := Filter(In(ids), table);
    assert multiset(rows(ids)) == multiset(whole);
    FilterMembers(In(ids), table);
    SameMembers(rows(ids), whole);
    if id in ids {
      FilterMultiset(Of(id), rows(ids), whole);
      FilterWithin(ids, id, table);
    } else {
      FilterAll(Of(id), rows(ids));
    }
  }

  // ----- The check of one object -----

  /** What `hasCalendarPrivilege` and `hasAddressbookPrivilege` say of one object, from the rows they are given. */
  function SingleAnswer(q: Request, o: Object, objectRows: Lookup, collectionRows: Lookup): bool {
    NearestDecides([objectRows([o.id]), collectionRows([q.collection])], q.Of(o))
  }

  lemma TwoLevels(own: seq<Ace>, inherited: seq<Ace>, q: Question)
    ensures NearestDecides([own, inherited], q) ==
            if Decision(own, q).Some? then Decision(own, q) == Some(Grant) else Decision(inherited, q) == Some(Grant)
  {
    assert [own, inherited][1..] == [inherited] && [inherited][1..] == [];
    assert !NearestDecides([], q);
    assert NearestDecides([inherited], q) == (Decision(inherited, q) == Some(Grant));
  }

  lemma ChainOfOne(parents: map<nat, Option<nat>>, id: nat)
    requires id in parents && parents[id] == None
    ensures Chain(parents, Some(id), {}) == Some([id])
  {
    assert Chain(parents, parents[id], {} + {id}) == Some([]);
    assert [id] + [] == [id];
  }

  /** The walk from an object of a calendar or addressbook: the object, then its one collection. */
  method CollectedDecision(own: seq<Ace>, collection: nat, collectionAces: seq<Ace>, q: Question)
      returns (allowed: bool)
    ensures allowed == NearestDecides([own, collectionAces], q)
  {
    var parents: map<nat, Option<nat>> := map[collection := None];
    var acesOf := (id: nat) => collectionAces;
    ChainOfOne(parents, collection);
    var aces := CollectAces(own, Some(collection), acesOf, parents);
    CollectedListAsksNearestFirst(own, [collection], acesOf, q);
    assert Levels([collection], acesOf) == [collectionAces] && [own] + [collectionAces] == [own, collectionAces];
    allowed := EvaluateAces(aces.value, q);
  }

  method CheckOne(q: Request, o: Object, objectRows: Lookup, collectionRows: Lookup) returns (allowed: bool)
    ensures allowed == SingleAnswer(q, o, objectRows, collectionRows)
  {
    allowed := CollectedDecision(objectRows([o.id]), q.collection, collectionRows([q.collection]), q.Of(o));
  }

  /** The check, in terms of the rows of the object and its collection. */
  lemma CheckIsDecidedBy(q: Request, o: Object, objectRows: Lookup, collectionRows: Lookup)
    ensures DecidedBy(objectRows([o.id]), collectionRows([q.collection]), q, o,
                      SingleAnswer(q, o, objectRows, collectionRows))
  {
    NearestIsDecidedBy(objectRows([o.id]), collectionRows([q.collection]), q, o);
  }

  // ----- The batched selection -----

  const ACE_LOOKUP_CHUNK_SIZE := 500

  function Listed(byObject: map<nat, seq<Ace>>, id: nat): seq<Ace> {
    if id in byObject then byObject[id] else []
  }

  function IdsOf(objects: seq<Object>): (ids: seq<nat>)
    ensures |ids| == |objects| && forall i :: 0 <= i < |ids| ==> ids[i] == objects[i].id
  {
    if objects == [] then [] else [objects[0].id] + IdsOf(objects[1..])
  }

  function ChunkEnd(objects: seq<Object>, start: nat): nat {
    if start + ACE_LOOKUP_CHUNK_SIZE < |objects| then start + ACE_LOOKUP_CHUNK_SIZE else |objects|
  }

  /** The ids of one chunk. */
  function ChunkIds(objects: seq<Object>, start: nat): seq<nat>
    requires start < |objects|
  {
    IdsOf(objects[start..ChunkEnd(objects, start)])
  }

  /** An object's rows as the chunks from `start` on bring them. */
  function GroupedRows(objects: seq<Object>, rows: Lookup, start: nat, id: nat): seq<Ace>
    decreases |objects| - start
  {
    if start >= |objects| then []
    else
      Filter(Of(id), rows(ChunkIds(objects, start))) + GroupedRows(objects, rows, start + ACE_LOOKUP_CHUNK_SIZE, id)
  }

  ghost predicate GroupedUpTo(byObject: map<nat, seq<Ace>>, objects: seq<Object>, rows: Lookup, start: nat) {
    forall id :: Listed(byObject, id) + GroupedRows(objects, rows, start, id) == GroupedRows(objects, rows, 0, id)
  }

  lemma GroupChunk(listed: seq<Ace>, objects: seq<Object>, rows: Lookup, start: nat, id: nat)
    requires start < |objects|
    ensures var found := Filter(Of(id), rows(ChunkIds(objects, start)));
            var rest := GroupedRows(objects, rows, start + ACE_LOOKUP_CHUNK_SIZE, id);
            listed + found + rest == listed + GroupedRows(objects, rows, start, id)
  {
  }

  lemma GroupNextChunk(before: map<nat, seq<Ace>>, byObject: map<nat, seq<Ace>>, objects: seq<Object>, rows: Lookup,
                       start: nat)
    requires start < |objects| && GroupedUpTo(before, objects, rows, start)
    requires Appended(byObject, before, rows(ChunkIds(objects, start)))
    ensures GroupedUpTo(byObject, objects, rows, start + ACE_LOOKUP_CHUNK_SIZE)
  {
    forall id
      ensures Listed(byObject, id) + GroupedRows(objects, rows, start + ACE_LOOKUP_CHUNK_SIZE, id)
           == GroupedRows(objects, rows, 0, id)
    {
      GroupChunk(Listed(before, id), objects, rows, start, id);
      assert Listed(before, id) + GroupedRows(objects, rows, start, id) == GroupedRows(objects, rows, 0, id);
    }
  }

  lemma GroupedAll(byObject: map<nat, seq<Ace>>, objects: seq<Object>, rows: Lookup, start: nat)
    requires start >= |objects| && GroupedUpTo(byObject, objects, rows, start)
    ensures forall id :: Listed(byObject, id) == GroupedRows(objects, rows, 0, id)
  {
    forall id
      ensures Listed(byObject, id) == GroupedRows(objects, rows, 0, id)
    {
      assert Listed(byObject, id) + GroupedRows(objects, rows, start, id) == GroupedRows(objects, rows, 0, id);
    }
  }

  lemma GroupedNone(objects: seq<Object>, rows: Lookup)
    ensures GroupedUpTo(map[], objects, rows, 0)
  {
  }

  /** The grouped lookup of every object's own entries, a chunk of ids at a time. */
  method OwnAcesByObject(objects: seq<Object>, rows: Lookup) returns (byObject: map<nat, seq<Ace>>)
    ensures forall id :: Listed(byObject, id) == GroupedRows(objects, rows, 0, id)
  {
    byObject := map[];
    var start: nat := 0;
    GroupedNone(objects, rows);
    while start < |objects|
      invariant GroupedUpTo(byObject, objects, rows, start)
      decreases |objects| - start
    {
      ghost var before := byObject;
      byObject := AppendRows(byObject, rows(ChunkIds(objects, start)));
      GroupNextChunk(before, byObject, objects, rows, start);
      start := start + ACE_LOOKUP_CHUNK_SIZE;
    }
    GroupedAll(byObject, objects, rows, start);
  }

  ghost predicate Appended(byObject: map<nat, seq<Ace>>, before: map<nat, seq<Ace>>, rows: seq<Ace>) {
    forall id :: Listed(byObject, id) == Listed(before, id) + Filter(Of(id), rows)
  }

  lemma AppendOne(byObject: map<nat, seq<Ace>>, before: map<nat, seq<Ace>>, rows: seq<Ace>, row: Ace)
    requires Appended(byObject, before, rows)
    ensures Appended(byObject[row.resourceId := Listed(byObject, row.resourceId) + [row]], before, rows + [row])
  {
    var next := byObject[row.resourceId := Listed(byObject, row.resourceId) + [row]];
    forall id
      ensures Listed(next, id) == Listed(before, id) + Filter(Of(id), rows + [row])
    {
      FilterAppend(Of(id), rows, row);
      assert Listed(byObject, id) == Listed(before, id) + Filter(Of(id), rows);
    }
  }

  method AppendRows(before: map<nat, seq<Ace>>, rows: seq<Ace>) returns (byObject: map<nat, seq<Ace>>)
    ensures Appended(byObject, before, rows)
  {
    byObject := before;
    for k := 0 to |rows|
      invariant Appended(byObject, before, rows[..k])
    {
      assert rows[..k + 1] == rows[..k] + [rows[k]];
      AppendOne(byObject, before, rows[..k], rows[k]);
      byObject := byObject[rows[k].resourceId := Listed(byObject, rows[k].resourceId) + [rows[k]]];
    }
    assert rows[..|rows|] == rows;
  }

  /** What the selection says of one of its objects, from the rows it is given. */
  function BatchedAnswer(q: Request, objects: seq<Object>, o: Object, objectRows: Lookup, collectionRows: Lookup): bool
  {
    NearestDecides([GroupedRows(objects, objectRows, 0, o.id), collectionRows([q.collection])], q.Of(o))
  }

  /** `allowed` are the ids of those of the first `k` objects that the selection allows. */
  ghost predicate Selected(q: Request, objects: seq<Object>, objectRows: Lookup, collectionRows: Lookup, k: nat,
                           allowed: set<nat>) {
    k <= |objects| && forall id :: id in allowed <==> AllowedAmong(q, objects, objectRows, collectionRows, k, id)
  }

  ghost predicate AllowedAmong(q: Request, objects: seq<Object>, objectRows: Lookup, collectionRows: Lookup, k: nat,
                               id: nat)
    requires k <= |objects|
  {
    exists i :: 0 <= i < k && objects[i].id == id && BatchedAnswer(q, objects, objects[i], objectRows, collectionRows)
  }

  lemma BatchedIsDecidedBy(q: Request, objects: seq<Object>, o: Object, objectRows: Lookup, collectionRows: Lookup)
    ensures DecidedBy(GroupedRows(objects, objectRows, 0, o.id), collectionRows([q.collection]), q, o,
                      BatchedAnswer(q, objects, o, objectRows, collectionRows))
  {
    NearestIsDecidedBy(GroupedRows(objects, objectRows, 0, o.id), collectionRows([q.collection]), q, o);
  }

  lemma SelectedAsAnswered(q: Request, objects: seq<Object>, i: nat, objectRows: Lookup, collectionRows: Lookup,
                           allowed: set<nat>)
    requires DistinctIds(objects) && i < |objects|
    requires Selected(q, objects, objectRows, collectionRows, |objects|, allowed)
    ensures objects[i].id in allowed <==> BatchedAnswer(q, objects, objects[i], objectRows, collectionRows)
  {
    assert AllowedAmong(q, objects, objectRows, collectionRows, |objects|, objects[i].id)
      <==> BatchedAnswer(q, objects, objects[i], objectRows, collectionRows);
  }

  /** So is the selection of each of its objects. */
  lemma SelectionIsDecidedBy(q: Request, objects: seq<Object>, i: nat, objectRows: Lookup, collectionRows: Lookup,
                             allowed: set<nat>, answer: bool)
    requires DistinctIds(objects) && i < |objects| && answer == (objects[i].id in allowed)
    requires Selected(q, objects, objectRows, collectionRows, |objects|, allowed)
    ensures DecidedBy(GroupedRows(objects, objectRows, 0, objects[i].id), collectionRows([q.collection]), q, objects[i],
                      answer)
  {
    SelectedAsAnswered(q, objects, i, objectRows, collectionRows, allowed);
    BatchedIsDecidedBy(q, objects, objects[i], objectRows, collectionRows);
  }

  lemma SelectNext(q: Request, objects: seq<Object>, objectRows: Lookup, collectionRows: Lookup, k: nat,
                   allowed: set<nat>, yes: bool)
    requires k < |objects| && Selected(q, objects, objectRows, collectionRows, k, allowed)
    requires yes == BatchedAnswer(q, objects, objects[k], objectRows, collectionRows)
    ensures Selected(q, objects, objectRows, collectionRows, k + 1, if yes then allowed + {objects[k].id} else allowed)
  {
  }

  /** `selectCalendarObjectsWithPrivilege` and `selectAddressObjectsWithPrivilege`: chunked, grouped and
      memoised by owner, each object's answer depends on its own rows, its owner and the collection's rows only. */
  method SelectObjectsWithPrivilege(q: Request, objects: seq<Object>, objectRows: Lookup, collectionRows: Lookup)
      returns (allowed: set<nat>)
    ensures Selected(q, objects, objectRows, collectionRows, |objects|, allowed)
  {
    allowed := {};
    if |objects| == 0 {
      return;
    }
    var inherited := collectionRows([q.collection]);
    var byObject := OwnAcesByObject(objects, objectRows);
    var matchingByOwner: map<nat, set<nat>> := map[];
    for k := 0 to |objects|
      invariant forall owner :: owner in matchingByOwner ==>
                  matchingByOwner[owner] == MatchingPrincipalIds(q.requester, owner)
      invariant Selected(q, objects, objectRows, collectionRows, k, allowed)
    {
      var o := objects[k];
      if o.owner !in matchingByOwner {
        matchingByOwner := matchingByOwner[o.owner := MatchingPrincipalIds(q.requester, o.owner)];
      }
      var own := Listed(byObject, o.id);
      var question := Question(matchingByOwner[o.owner], q.requested, q.satisfies);
      assert question == q.Of(o);
      var yes := CollectedDecision(own, q.collection, inherited, question);
      SelectNext(q, objects, objectRows, collectionRows, k, allowed, yes);
      if yes {
        allowed := allowed + {o.id};
      }
    }
  }

  // ----- Batched against single -----

  lemma {:induction false} NotInLaterChunks(objects: seq<Object>, rows: Lookup, table: seq<Ace>, start: nat, id: nat)
    requires Answers(rows, table) && forall k :: start <= k < |objects| ==> objects[k].id != id
    ensures GroupedRows(objects, rows, start, id) == []
    decreases |objects| - start
  {
    if start >= |objects| {
    } else {
      assert id !in ChunkIds(objects, start);
      LookupAmong(rows, table, ChunkIds(objects, start), id);
      NotInLaterChunks(objects, rows, table, start + ACE_LOOKUP_CHUNK_SIZE, id);
    }
  }

  /** An object's rows all come with the one chunk that asks for it. */
  lemma {:induction false} FromOneChunk(objects: seq<Object>, rows: Lookup, table: seq<Ace>, start: nat, i: nat)
      returns (ids: seq<nat>)
    requires Answers(rows, table) && DistinctIds(objects) && start <= i < |objects|
    ensures objects[i].id in ids
    ensures GroupedRows(objects, rows, start, objects[i].id) == Filter(Of(objects[i].id), rows(ids))
    decreases |objects| - start
  {
    var id, next := objects[i].id, start + ACE_LOOKUP_CHUNK_SIZE;
    if i < ChunkEnd(objects, start) {
      ids := ChunkIds(objects, start);
      assert ids[i - start] == id;
      NotInLaterChunks(objects, rows, table, next, id);
    } else {
      assert id !in ChunkIds(objects, start);
      LookupAmong(rows, table, ChunkIds(objects, start), id);
      ids := FromOneChunk(objects, rows, table, next, i);
    }
  }

  lemma GroupedRowsAre(objects: seq<Object>, rows: Lookup, table: seq<Ace>, i: nat)
    requires Answers(rows, table) && DistinctIds(objects) && i < |objects|
    ensures multiset(GroupedRows(objects, rows, 0, objects[i].id)) == multiset(RowsOf(table, objects[i].id))
  {
    var ids := FromOneChunk(objects, rows, table, 0, i);
    LookupAmong(rows, table, ids, objects[i].id);
  }

  /** The level that decides has no entries that tie and disagree: the object's own if any of them applies,
      else its collection's, too. */
  ghost predicate Clear(q: Request, o: Object, objectAces: seq<Ace>, collectionAces: seq<Ace>) {
    && Unambiguous(RowsOf(objectAces, o.id), q.Of(o))
    && (Decision(RowsOf(objectAces, o.id), q.Of(o)).None? ==>
          Unambiguous(RowsOf(collectionAces, q.collection), q.Of(o)))
  }

  lemma ClearOneAnswer(own: seq<Ace>, inherited: seq<Ace>, q: Question, a: seq<Ace>, c: seq<Ace>)
    requires Unambiguous(own, q) && (Decision(own, q).None? ==> Unambiguous(inherited, q))
    requires multiset(a) == multiset(own) && multiset(c) == multiset(inherited)
    ensures NearestDecides([a, c], q) == NearestDecides([own, inherited], q)
  {
    SameMembers(own, a);
    SameMembers(inherited, c);
    OrderDoesNotMatter(own, a, q);
    if Decision(own, q).None? {
      OrderDoesNotMatter(inherited, c, q);
    }
    TwoLevels(a, c, q);
    TwoLevels(own, inherited, q);
  }

  /** An ambiguous level can be ordered to decide otherwise than it does in a given order. */
  lemma DecidesOtherwise(level: seq<Ace>, given: seq<Ace>, q: Question) returns (other: seq<Ace>)
    requires !Unambiguous(level, q) && multiset(given) == multiset(level)
    ensures multiset(other) == multiset(level)
    ensures Decision(other, q).Some? && Decision(given, q).Some? && Decision(other, q) != Decision(given, q)
  {
    OrderMattersExactlyForTies(level, q);
    var a, b :| multiset(a) == multiset(level) && multiset(b) == multiset(level) && Decision(a, q) != Decision(b, q);
    SameMembers(level, a);
    SameMembers(level, b);
    SameMembers(level, given);
    DecisionIsLowest(a, q);
    DecisionIsLowest(b, q);
    DecisionIsLowest(given, q);
    other := if Decision(a, q) != Decision(given, q) then a else b;
  }

  function Plainly(table: seq<Ace>): Lookup {
    (ids: seq<nat>) => Filter(In(ids), table)
  }

  function Instead(table: seq<Ace>, id: nat, rows: seq<Ace>): Lookup {
    (ids: seq<nat>) => if ids == [id] then rows else Filter(In(ids), table)
  }

  lemma InsteadAnswers(table: seq<Ace>, id: nat, rows: seq<Ace>)
    requires multiset(rows) == multiset(RowsOf(table, id))
    ensures Answers(Instead(table, id, rows), table)
  {
    FilterAgrees(In([id]), Of(id), table);
  }

  /** For every order in which the database may return rows, to the check and to the selection. */
  ghost predicate AlwaysAgree(q: Request, objects: seq<Object>, o: Object, objectAces: seq<Ace>,
                              collectionAces: seq<Ace>) {
    forall single, inherited, batched, inheritedToo ::
      Answers(single, objectAces) && Answers(inherited, collectionAces)
      && Answers(batched, objectAces) && Answers(inheritedToo, collectionAces) ==>
      SingleAnswer(q, o, single, inherited) == BatchedAnswer(q, objects, o, batched, inheritedToo)
  }

  /** The selection gives an object the answer of the single check, whatever orders the rows come in, exactly if the
      level that decides is unambiguous; no other object of the list matters. */
  lemma AgreeExactlyWhereClear(q: Request, objects: seq<Object>, i: nat, objectAces: seq<Ace>, collectionAces: seq<Ace>)
    requires DistinctIds(objects) && i < |objects|
    ensures AlwaysAgree(q, objects, objects[i], objectAces, collectionAces)
            <==> Clear(q, objects[i], objectAces, collectionAces)
  {
    var o := objects[i];
    if Clear(q, o, objectAces, collectionAces) {
      forall single, inherited, batched, inheritedToo |
        && Answers(single, objectAces) && Answers(inherited, collectionAces)
        && Answers(batched, objectAces) && Answers(inheritedToo, collectionAces)
        ensures SingleAnswer(q, o, single, inherited) == BatchedAnswer(q, objects, o, batched, inheritedToo)
      {
        ClearAgrees(q, objects, i, objectAces, collectionAces, single, inherited, batched, inheritedToo);
      }
    } else {
      UnclearDiffers(q, objects, i, objectAces, collectionAces);
    }
  }

  /** So the selection holds the id of each object with a clear answer exactly when the single check allows it. */
  lemma SelectionHoldsWhatTheCheckAllows(q: Request, objects: seq<Object>, i: nat, objectAces: seq<Ace>,
                                         collectionAces: seq<Ace>, single: Lookup, inherited: Lookup,
                                         batched: Lookup, inheritedToo: Lookup, allowed: set<nat>)
    requires DistinctIds(objects) && i < |objects| && Clear(q, objects[i], objectAces, collectionAces)
    requires Answers(single, objectAces) && Answers(inherited, collectionAces)
    requires Answers(batched, objectAces) && Answers(inheritedToo, collectionAces)
    requires Selected(q, objects, batched, inheritedToo, |objects|, allowed)
    ensures objects[i].id in allowed <==> SingleAnswer(q, objects[i], single, inherited)
  {
    ClearAgrees(q, objects, i, objectAces, collectionAces, single, inherited, batched, inheritedToo);
    assert AllowedAmong(q, objects, batched, inheritedToo, |objects|, objects[i].id)
      <==> BatchedAnswer(q, objects, objects[i], batched, inheritedToo);
  }

  lemma ClearAgrees(q: Request, objects: seq<Object>, i: nat, objectAces: seq<Ace>, collectionAces: seq<Ace>,
                    single: Lookup, inherited: Lookup, batched: Lookup, inheritedToo: Lookup)
    requires DistinctIds(objects) && i < |objects| && Clear(q, objects[i], objectAces, collectionAces)
    requires Answers(single, objectAces) && Answers(inherited, collectionAces)
    requires Answers(batched, objectAces) && Answers(inheritedToo, collectionAces)
    ensures SingleAnswer(q, objects[i], single, inherited)
            == BatchedAnswer(q, objects, objects[i], batched, inheritedToo)
  {
    var o := objects[i];
    var own, level := RowsOf(objectAces, o.id), RowsOf(collectionAces, q.collection);
    LookupOfOne(single, objectAces, o.id);
    LookupOfOne(inherited, collectionAces, q.collection);
    LookupOfOne(inheritedToo, collectionAces, q.collection);
    GroupedRowsAre(objects, batched, objectAces, i);
    ClearOneAnswer(own, level, q.Of(o), single([o.id]), inherited([q.collection]));
    ClearOneAnswer(own, level, q.Of(o), GroupedRows(objects, batched, 0, o.id), inheritedToo([q.collection]));
  }

  lemma UnclearDiffers(q: Request, objects: seq<Object>, i: nat, objectAces: seq<Ace>, collectionAces: seq<Ace>)
    requires DistinctIds(objects) && i < |objects| && !Clear(q, objects[i], objectAces, collectionAces)
    ensures !AlwaysAgree(q, objects, objects[i], objectAces, collectionAces)
  {
    if !Unambiguous(RowsOf(objectAces, objects[i].id), q.Of(objects[i])) {
      UnclearObject(q, objects, i, objectAces, collectionAces);
    } else {
      UnclearCollection(q, objects, i, objectAces, collectionAces);
    }
  }

  lemma Disagree(q: Request, objects: seq<Object>, o: Object, objectAces: seq<Ace>, collectionAces: seq<Ace>,
                 single: Lookup, inherited: Lookup, batched: Lookup, inheritedToo: Lookup)
    requires Answers(single, objectAces) && Answers(inherited, collectionAces)
    requires Answers(batched, objectAces) && Answers(inheritedToo, collectionAces)
    requires SingleAnswer(q, o, single, inherited) != BatchedAnswer(q, objects, o, batched, inheritedToo)
    ensures !AlwaysAgree(q, objects, o, objectAces, collectionAces)
  {
  }

  lemma PlainlyAnswers(table: seq<Ace>)
    ensures Answers(Plainly(table), table)
  {
  }

  lemma UnclearObject(q: Request, objects: seq<Object>, i: nat, objectAces: seq<Ace>, collectionAces: seq<Ace>)
    requires DistinctIds(objects) && i < |objects| && !Unambiguous(RowsOf(objectAces, objects[i].id), q.Of(objects[i]))
    ensures !AlwaysAgree(q, objects, objects[i], objectAces, collectionAces)
  {
    var o, batched, inherited := objects[i], Plainly(objectAces), Plainly(collectionAces);
    PlainlyAnswers(objectAces);
    PlainlyAnswers(collectionAces);
    GroupedRowsAre(objects, batched, objectAces, i);
    var given := GroupedRows(objects, batched, 0, o.id);
    var other, single := UnclearOrder(objectAces, o.id, given, q.Of(o));
    TwoLevels(other, inherited([q.collection]), q.Of(o));
    TwoLevels(given, inherited([q.collection]), q.Of(o));
    Disagree(q, objects, o, objectAces, collectionAces, single, inherited, batched, inherited);
  }

  /** A lookup whose order of one resource's rows decides otherwise than a given one. */
  lemma UnclearOrder(table: seq<Ace>, id: nat, given: seq<Ace>, q: Question) returns (other: seq<Ace>, rows: Lookup)
    requires !Unambiguous(RowsOf(table, id), q) && multiset(given) == multiset(RowsOf(table, id))
    ensures Answers(rows, table) && rows([id]) == other
    ensures Decision(other, q).Some? && Decision(given, q).Some? && Decision(other, q) != Decision(given, q)
  {
    other := DecidesOtherwise(RowsOf(table, id), given, q);
    rows := Instead(table, id, other);
    InsteadAnswers(table, id, other);
  }

  lemma LevelsDiffer(a: seq<Ace>, b: seq<Ace>, c: seq<Ace>, d: seq<Ace>, q: Question)
    requires Decision(a, q).None? && Decision(c, q).None?
    requires Decision(b, q).Some? && Decision(d, q).Some? && Decision(b, q) != Decision(d, q)
    ensures NearestDecides([a, b], q) != NearestDecides([c, d], q)
  {
    TwoLevels(a, b, q);
    TwoLevels(c, d, q);
  }

  lemma UnclearCollection(q: Request, objects: seq<Object>, i: nat, objectAces: seq<Ace>, collectionAces: seq<Ace>)
    requires DistinctIds(objects) && i < |objects| && Unambiguous(RowsOf(objectAces, objects[i].id), q.Of(objects[i]))
    requires !Clear(q, objects[i], objectAces, collectionAces)
    ensures !AlwaysAgree(q, objects, objects[i], objectAces, collectionAces)
  {
    var o, batched, inherited := objects[i], Plainly(objectAces), Plainly(collectionAces);
    PlainlyAnswers(objectAces);
    PlainlyAnswers(collectionAces);
    LookupOfOne(inherited, collectionAces, q.collection);
    var given := inherited([q.collection]);
    var other, instead := UnclearOrder(collectionAces, q.collection, given, q.Of(o));
    ObjectDecidesAsGiven(q, objects, i, objectAces, batched);
    LevelsDiffer(batched([o.id]), other, GroupedRows(objects, batched, 0, o.id), given, q.Of(o));
    Disagree(q, objects, o, objectAces, collectionAces, batched, instead, batched, inherited);
  }

  lemma ObjectDecidesAsGiven(q: Request, objects: seq<Object>, i: nat, objectAces: seq<Ace>, rows: Lookup)
    requires DistinctIds(objects) && i < |objects| && Answers(rows, objectAces)
    requires Unambiguous(RowsOf(objectAces, objects[i].id), q.Of(objects[i]))
    ensures Decision(rows([objects[i].id]), q.Of(objects[i]))
            == Decision(RowsOf(objectAces, objects[i].id), q.Of(objects[i]))
    ensures Decision(GroupedRows(objects, rows, 0, objects[i].id), q.Of(objects[i]))
         == Decision(RowsOf(objectAces, objects[i].id), q.Of(objects[i]))
  {
    GroupedRowsAre(objects, rows, objectAces, i);
    LookupOfOne(rows, objectAces, objects[i].id);
    DecidesAsGiven(RowsOf(objectAces, objects[i].id), GroupedRows(objects, rows, 0, objects[i].id), q.Of(objects[i]));
    DecidesAsGiven(RowsOf(objectAces, objects[i].id), rows([objects[i].id]), q.Of(objects[i]));
  }

  lemma DecidesAsGiven(level: seq<Ace>, rows: seq<Ace>, q: Question)
    requires Unambiguous(level, q) && multiset(rows) == multiset(level)
    ensures Decision(rows, q) == Decision(level, q)
  {
    SameMembers(level, rows);
    OrderDoesNotMatter(level, rows, q);
  }

  /** With the same order of a resource's rows in both, the selection holds an object exactly when the single check
      allows it, without any condition on the entries. */
  lemma SameOrderSameAnswer(q: Request, objects: seq<Object>, i: nat, table: seq<Ace>, single: Lookup, batched: Lookup,
                            inherited: Lookup)
    requires DistinctIds(objects) && i < |objects| && Answers(batched, table) && SameOrder(single, batched)
    ensures BatchedAnswer(q, objects, objects[i], batched, inherited) == SingleAnswer(q, objects[i], single, inherited)
  {
    var ids := FromOneChunk(objects, batched, table, 0, i);
  }

  lemma FirstOfTwo(a: Ace, b: Ace, q: Question)
    requires a.position == b.position && Applies(a, q)
    ensures Decision([a, b], q) == Some(a.grantDeny)
  {
    SortOfOrdered(ByPosition, [a, b]);
  }

  lemma RowsOfBoth(a: Ace, b: Ace, id: nat)
    requires a.resourceId == id && b.resourceId == id
    ensures RowsOf([a, b], id) == [a, b] && Plainly([a, b])([id]) == [a, b]
    ensures GroupedRows([Object(id, 0)], Plainly([a, b]), 0, id) == [a, b]
  {
    FilterAll(Of(id), [a, b]);
    FilterAll(In([id]), [a, b]);
    assert ChunkIds([Object(id, 0)], 0) == [id];
  }

  lemma OppositeEntriesDiffer(q: Request, grant: Ace, deny: Ace)
    requires grant.resourceId == deny.resourceId == 7 && grant.position == deny.position
    requires grant.grantDeny == Grant && deny.grantDeny == Deny
    requires Applies(grant, q.Of(Object(7, 0))) && Applies(deny, q.Of(Object(7, 0)))
    ensures var o, table := Object(7, 0), [deny, grant];
            var single, batched := Instead(table, 7, [grant, deny]), Plainly(table);
            && Answers(single, table) && Answers(batched, table)
            && SingleAnswer(q, o, single, Plainly([])) && !BatchedAnswer(q, [o], o, batched, Plainly([]))
  {
    var o, table := Object(7, 0), [deny, grant];
    RowsOfBoth(deny, grant, 7);
    InsteadAnswers(table, 7, [grant, deny]);
    FirstOfTwo(grant, deny, q.Of(o));
    FirstOfTwo(deny, grant, q.Of(o));
    TwoLevels([grant, deny], [], q.Of(o));
    TwoLevels([deny, grant], [], q.Of(o));
  }

  /** Two entries of one position, one granting and one denying, returned in one order to the check and in the other to
      the selection: the check allows what the selection leaves out. */
  lemma SelectionCanDiffer()
    ensures var q := Request(Requester(5, {}, []), 9, ReadFreeBusy, CalendarPrivilegeSatisfies);
            var grant, deny := Ace(1, 7, 5, ReadFreeBusy, Grant, 0), Ace(2, 7, 5, ReadFreeBusy, Deny, 0);
            var o, table := Object(7, 0), [deny, grant];
            var single, batched := Instead(table, 7, [grant, deny]), Plainly(table);
            && Answers(single, table) && Answers(batched, table)
            && SingleAnswer(q, o, single, Plainly([])) && !BatchedAnswer(q, [o], o, batched, Plainly([]))
  {
    var q := Request(Requester(5, {}, []), 9, ReadFreeBusy, CalendarPrivilegeSatisfies);
    OppositeEntriesDiffer(q, Ace(1, 7, 5, ReadFreeBusy, Grant, 0), Ace(2, 7, 5, ReadFreeBusy, Deny, 0));
  }
}
