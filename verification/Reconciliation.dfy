/** reconcile (internal/ingestion/handler.go): what a full scan did not observe becomes MISSING. */
module Reconciliation {

  datatype Presence = Active | Missing | Other

  /** A source_object row; digest: the keyed digest of its external identity. */
  datatype Object = Object(connection: string, keyVersion: int, digest: string, lifecycle: Presence, queryable: bool)

  /** The key of a source_object_scope row. */
  datatype Link = Link(objectId: string, scope: string, revision: int)

  datatype Membership = Membership(state: Presence, missingRun: string)

  datatype Tables = Tables(objects: map<string, Object>, memberships: map<Link, Membership>)

  /** One authoritative scan: its scope revision, connection, digest key version, run, and the digests it saw. */
  datatype Scan = Scan(scope: string, revision: int, connection: string, keyVersion: int, run: string, seen: set<string>)

  // ----- the identities a scan saw -----

  datatype Kind = Document | Remote(name: string)

  datatype Identity = FileLocator(connection: string, path: string) | ObservedId(connection: string, kind: Kind, externalId: string)

  datatype Observed = Observed(kind: Kind, externalId: string)

  /** The identity a listed object is compared under. */
  function IdentityOf(connection: string, sourceKind: Kind, observedById: map<string, Observed>, listed: string): Identity {
    if listed in observedById && observedById[listed].kind != Document then
      ObservedId(connection, observedById[listed].kind, observedById[listed].externalId)
    else if sourceKind != Document then ObservedId(connection, sourceKind, listed)
    else FileLocator(connection, listed)
  }

  /** The digests of everything discovered or quarantined. */
  method SeenDigests(connection: string, sourceKind: Kind, observedById: map<string, Observed>, listed: seq<string>,
                     digest: Identity -> string) returns (seen: set<string>)
    ensures forall identity :: (exists l :: l in listed && identity == IdentityOf(connection, sourceKind, observedById, l))
                               ==> digest(identity) in seen
    ensures forall d :: d in seen ==> exists l :: l in listed && d == digest(IdentityOf(connection, sourceKind, observedById, l))
  {
    seen := {};
    for i := 0 to |listed|
      invariant forall k :: 0 <= k < i ==> digest(IdentityOf(connection, sourceKind, observedById, listed[k])) in seen
      invariant forall d :: d in seen ==> exists l :: l in listed && d == digest(IdentityOf(connection, sourceKind, observedById, l))
    {
      var identity := IdentityOf(connection, sourceKind, observedById, listed[i]);
      assert listed[i] in listed;
      seen := seen + {digest(identity)};
    }
  }

  /** Listed objects without an observation of their own keep different identities, and one of another kind than
      a document is compared under the kind and external id it was observed with. */
  lemma IdentityTells(connection: string, sourceKind: Kind, observedById: map<string, Observed>, a: string, b: string)
    ensures a !in observedById && b !in observedById ==>
              (IdentityOf(connection, sourceKind, observedById, a) == IdentityOf(connection, sourceKind, observedById, b) <==> a == b)
    ensures a !in observedById || observedById[a].kind == Document ==>
              (IdentityOf(connection, sourceKind, observedById, a) == FileLocator(connection, a) <==> sourceKind == Document)
              && (sourceKind != Document ==> IdentityOf(connection, sourceKind, observedById, a) == ObservedId(connection, sourceKind, a))
    ensures a in observedById && observedById[a].kind != Document ==>
              IdentityOf(connection, sourceKind, observedById, a) == ObservedId(connection, observedById[a].kind, observedById[a].externalId)
  {
  }

  // ----- the two updates -----

  predicate InScope(link: Link, scan: Scan) {
    link.scope == scan.scope && link.revision == scan.revision
  }

  /** The object is one this scan would have seen under the same digest key. */
  predicate Comparable(o: Object, scan: Scan) {
    o.connection == scan.connection && o.keyVersion == scan.keyVersion
  }

  /** The membership is open and the scan did not observe its object. */
  predicate Absent(t: Tables, scan: Scan, link: Link) {
    && link in t.memberships && t.memberships[link].state == Active && InScope(link, scan)
    && link.objectId in t.objects && Comparable(t.objects[link.objectId], scan) && t.objects[link.objectId].digest !in scan.seen
  }

  ghost predicate HasActive(t: Tables, objectId: string) {
    exists link :: link in t.memberships && link.objectId == objectId && t.memberships[link].state == Active
  }

  ghost predicate MissingIn(t: Tables, scan: Scan, objectId: string) {
    exists link :: link in t.memberships && link.objectId == objectId && InScope(link, scan) && t.memberships[link].state == Missing
  }

  function Closed(t: Tables, scan: Scan, link: Link): Membership
    requires link in t.memberships
  {
    if Absent(t, scan, link) then Membership(Missing, scan.run) else t.memberships[link]
  }

  /** After the first update. */
  function CloseMemberships(t: Tables, scan: Scan): Tables {
    t.(memberships := map link | link in t.memberships :: Closed(t, scan, link))
  }

  ghost predicate Orphaned(t: Tables, scan: Scan, objectId: string) {
    && objectId in t.objects && t.objects[objectId].lifecycle == Active
    && MissingIn(t, scan, objectId) && !HasActive(t, objectId)
  }

  ghost function Retired(t: Tables, scan: Scan, objectId: string): Object
    requires objectId in t.objects
  {
    if Orphaned(t, scan, objectId) then t.objects[objectId].(lifecycle := Missing, queryable := false) else t.objects[objectId]
  }

  /** After the second update, which reads the memberships the first one left. */
  ghost function CloseObjects(t: Tables, scan: Scan): Tables {
    t.(objects := map objectId | objectId in t.objects :: Retired(t, scan, objectId))
  }

  ghost function Reconciled(t: Tables, scan: Scan): Tables {
    CloseObjects(CloseMemberships(t, scan), scan)
  }

  /** Every ACTIVE object is a member somewhere. */
  ghost predicate EveryActiveIsMember(t: Tables) {
    forall objectId :: objectId in t.objects && t.objects[objectId].lifecycle == Active ==> HasActive(t, objectId)
  }

  // ----- what reconciliation does -----

  /** Exactly the ACTIVE memberships of this scope revision whose object belongs to the connection and key version
      and was not seen turn MISSING under this run; exactly the ACTIVE objects left without an ACTIVE membership turn
      MISSING and unqueryable; no other field of any row changes. */
  lemma ReconciledExactly(t: Tables, scan: Scan)
    requires EveryActiveIsMember(t)
    ensures var after := Reconciled(t, scan);
            && after.memberships.Keys == t.memberships.Keys && after.objects.Keys == t.objects.Keys
            && (forall link :: link in t.memberships ==>
                                 after.memberships[link] ==
                                 if t.memberships[link].state == Active && link.scope == scan.scope && link.revision == scan.revision
                                    && link.objectId in t.objects && t.objects[link.objectId].connection == scan.connection
                                    && t.objects[link.objectId].keyVersion == scan.keyVersion && t.objects[link.objectId].digest !in scan.seen
                                 then Membership(Missing, scan.run) else t.memberships[link])
            && forall objectId :: objectId in t.objects ==>
                                    after.objects[objectId] ==
                                    if t.objects[objectId].lifecycle == Active
                                       && forall link :: link in after.memberships && link.objectId == objectId ==> after.memberships[link].state != Active
                                    then t.objects[objectId].(lifecycle := Missing, queryable := false) else t.objects[objectId]
  {
    forall objectId | objectId in t.objects
      ensures Reconciled(t, scan).objects[objectId] ==
              if LosesLast(t, scan, objectId) then t.objects[objectId].(lifecycle := Missing, queryable := false) else t.objects[objectId]
    {
      ObjectExactly(t, scan, objectId);
    }
    forall objectId | objectId in t.objects && t.objects[objectId].lifecycle == Active
      ensures LosesLast(t, scan, objectId) <==> !HasActive(Reconciled(t, scan), objectId)
    {
      LastIsLost(t, scan, objectId);
    }
  }

  lemma LastIsLost(t: Tables, scan: Scan, objectId: string)
    requires EveryActiveIsMember(t) && objectId in t.objects && t.objects[objectId].lifecycle == Active
    ensures LosesLast(t, scan, objectId) <==> !HasActive(Reconciled(t, scan), objectId)
  {
    var after := Reconciled(t, scan);
    if HasActive(after, objectId) {
      var link :| link in after.memberships && link.objectId == objectId && after.memberships[link].state == Active;
      assert !Absent(t, scan, link);
    } else {
      var link :| link in t.memberships && link.objectId == objectId && t.memberships[link].state == Active;
      forall other | other in t.memberships && other.objectId == objectId && t.memberships[other].state == Active ensures Absent(t, scan, other) {
        assert after.memberships[other].state != Active;
      }
    }
  }

  /** The object is ACTIVE, and this scan finds absent every ACTIVE membership it has. */
  ghost predicate LosesLast(t: Tables, scan: Scan, objectId: string) {
    && objectId in t.objects && t.objects[objectId].lifecycle == Active
    && (exists link :: Absent(t, scan, link) && link.objectId == objectId)
    && forall link :: link in t.memberships && link.objectId == objectId && t.memberships[link].state == Active ==> Absent(t, scan, link)
  }

  lemma ObjectExactly(t: Tables, scan: Scan, objectId: string)
    requires EveryActiveIsMember(t) && objectId in t.objects
    ensures Orphaned(CloseMemberships(t, scan), scan, objectId) <==> LosesLast(t, scan, objectId)
  {
    var mid := CloseMemberships(t, scan);
    if LosesLast(t, scan, objectId) {
      var link :| Absent(t, scan, link) && link.objectId == objectId;
      assert mid.memberships[link].state == Missing;
      assert MissingIn(mid, scan, objectId);
    }
    if Orphaned(mid, scan, objectId) {
      var link :| link in t.memberships && link.objectId == objectId && t.memberships[link].state == Active;
      forall other | other in t.memberships && other.objectId == objectId && t.memberships[other].state == Active ensures Absent(t, scan, other) {
        assert mid.memberships[other].state != Active;
      }
    }
  }

  /** Reconciliation keeps every ACTIVE object a member of some scope. */
  lemma KeepsEveryActiveIsMember(t: Tables, scan: Scan)
    requires EveryActiveIsMember(t)
    ensures EveryActiveIsMember(Reconciled(t, scan))
  {
    var after := Reconciled(t, scan);
    forall objectId | objectId in after.objects && after.objects[objectId].lifecycle == Active ensures HasActive(after, objectId) {
      ObjectExactly(t, scan, objectId);
      StillMember(t, scan, objectId);
    }
  }

  lemma StillMember(t: Tables, scan: Scan, objectId: string)
    requires HasActive(t, objectId) && !(forall link :: link in t.memberships && link.objectId == objectId && t.memberships[link].state == Active ==> Absent(t, scan, link))
    ensures HasActive(Reconciled(t, scan), objectId)
  {
    var link :| link in t.memberships && link.objectId == objectId && t.memberships[link].state == Active && !Absent(t, scan, link);
    assert Reconciled(t, scan).memberships[link].state == Active;
  }

  lemma NothingAbsentTwice(t: Tables, scan: Scan)
    ensures CloseMemberships(CloseMemberships(t, scan), scan) == CloseMemberships(t, scan)
  {
    var once := CloseMemberships(t, scan);
    assert forall link :: link in once.memberships ==> !Absent(once, scan, link);
    assert CloseMemberships(once, scan).memberships == once.memberships;
  }

  lemma ClosingReadsNoLifecycle(t: Tables, scan: Scan, other: Scan)
    ensures CloseMemberships(CloseObjects(t, other), scan) == CloseObjects(t, other).(memberships := CloseMemberships(t, scan).memberships)
  {
    var u := CloseObjects(t, other);
    assert forall link :: link in t.memberships ==> (Absent(u, scan, link) <==> Absent(t, scan, link));
    assert CloseMemberships(u, scan).memberships == CloseMemberships(t, scan).memberships;
  }

  /** The same scan again changes nothing. */
  lemma Idempotent(t: Tables, scan: Scan)
    ensures Reconciled(Reconciled(t, scan), scan) == Reconciled(t, scan)
  {
    var mid := CloseMemberships(t, scan);
    var after := CloseObjects(mid, scan);
    ClosingReadsNoLifecycle(mid, scan, scan);
    NothingAbsentTwice(t, scan);
    assert CloseMemberships(after, scan) == after;
    assert after.memberships == mid.memberships;
    forall objectId | objectId in after.objects ensures Retired(after, scan, objectId) == after.objects[objectId] {
      assert HasActive(after, objectId) == HasActive(mid, objectId);
      assert MissingIn(after, scan, objectId) == MissingIn(mid, scan, objectId);
    }
    assert CloseObjects(after, scan).objects == after.objects;
  }

  predicate DifferentScopes(a: Scan, b: Scan) {
    a.scope != b.scope || a.revision != b.revision
  }

  lemma MembershipsCommute(t: Tables, a: Scan, b: Scan)
    requires DifferentScopes(a, b)
    ensures CloseMemberships(CloseMemberships(t, a), b) == CloseMemberships(CloseMemberships(t, b), a)
  {
    assert CloseMemberships(CloseMemberships(t, a), b).memberships == CloseMemberships(CloseMemberships(t, b), a).memberships;
  }

  lemma BothMemberships(t: Tables, a: Scan, b: Scan)
    ensures Reconciled(Reconciled(t, a), b).memberships == CloseMemberships(CloseMemberships(t, a), b).memberships
  {
    ClosingReadsNoLifecycle(CloseMemberships(t, a), b, a);
  }

  /** After two scans an object is left ACTIVE unless one of them has a MISSING membership of it and none is ACTIVE. */
  lemma BothObjects(t: Tables, a: Scan, b: Scan, objectId: string)
    requires DifferentScopes(a, b) && objectId in t.objects
    ensures var end := CloseMemberships(CloseMemberships(t, a), b);
            Reconciled(Reconciled(t, a), b).objects[objectId]
            == if t.objects[objectId].lifecycle == Active && !HasActive(end, objectId) && (MissingIn(end, a, objectId) || MissingIn(end, b, objectId))
            then t.objects[objectId].(lifecycle := Missing, queryable := false) else t.objects[objectId]
  {
    var mid := CloseMemberships(t, a);
    var once := CloseObjects(mid, a);
    var end := CloseMemberships(mid, b);
    var two := CloseMemberships(once, b);
    BothMemberships(t, a, b);
    assert two.memberships == end.memberships;
    assert HasActive(two, objectId) == HasActive(end, objectId);
    assert MissingIn(two, b, objectId) == MissingIn(end, b, objectId);
    MissingElsewhereKept(mid, a, b, objectId);
    ActiveOnlyFalls(mid, b, objectId);
  }

  lemma MissingElsewhereKept(t: Tables, a: Scan, b: Scan, objectId: string)
    requires DifferentScopes(a, b)
    ensures MissingIn(CloseMemberships(t, b), a, objectId) <==> MissingIn(t, a, objectId)
  {
    var after := CloseMemberships(t, b);
    if MissingIn(t, a, objectId) {
      var link :| link in t.memberships && link.objectId == objectId && InScope(link, a) && t.memberships[link].state == Missing;
      assert after.memberships[link].state == Missing;
    }
  }

  /** If a scan closed the last ACTIVE membership, its own scope holds a MISSING one. */
  lemma ActiveOnlyFalls(t: Tables, scan: Scan, objectId: string)
    ensures HasActive(CloseMemberships(t, scan), objectId) ==> HasActive(t, objectId)
    ensures HasActive(t, objectId) && !HasActive(CloseMemberships(t, scan), objectId) ==> MissingIn(CloseMemberships(t, scan), scan, objectId)
  {
    var after := CloseMemberships(t, scan);
    if HasActive(t, objectId) && !HasActive(after, objectId) {
      var link :| link in t.memberships && link.objectId == objectId && t.memberships[link].state == Active;
      assert after.memberships[link].state == Missing;
    }
  }

  /** Scans of different scopes commute. */
  lemma ScansCommute(t: Tables, a: Scan, b: Scan)
    requires DifferentScopes(a, b)
    ensures Reconciled(Reconciled(t, a), b) == Reconciled(Reconciled(t, b), a)
  {
    var x, y := Reconciled(Reconciled(t, a), b), Reconciled(Reconciled(t, b), a);
    MembershipsCommute(t, a, b);
    BothMemberships(t, a, b);
    BothMemberships(t, b, a);
    forall objectId | objectId in t.objects ensures x.objects[objectId] == y.objects[objectId] {
      BothObjects(t, a, b, objectId);
      BothObjects(t, b, a, objectId);
    }
    assert x.objects == y.objects;
  }

  // ----- the handler -----

  datatype Coverage = Authoritative | PartialCoverage | EmptyScan

  class Handler {
    var objects: map<string, Object>
    var memberships: map<Link, Membership>

    ghost function State(): Tables
      reads this
    {
      Tables(objects, memberships)
    }

    method HasActiveMembership(objectId: string) returns (has: bool)
      ensures has <==> HasActive(State(), objectId)
    {
      has := exists link :: link in memberships && link.objectId == objectId && memberships[link].state == Active;
    }

    method HasMissingMembership(objectId: string, scan: Scan) returns (has: bool)
      ensures has <==> MissingIn(State(), scan, objectId)
    {
      has := exists link :: link in memberships && link.objectId == objectId && InScope(link, scan) && memberships[link].state == Missing;
    }

    /** The second UPDATE, row by row, and the ids it returns. */
    method CloseOrphans(scan: Scan) returns (missing: set<string>)
      modifies this`objects
      ensures State() == CloseObjects(old(State()), scan)
      ensures forall objectId :: objectId in missing <==> Orphaned(old(State()), scan, objectId)
    {
      ghost var t := State();
      missing := {};
      var remaining := objects.Keys;
      while remaining != {}
        invariant remaining <= objects.Keys == t.objects.Keys
        invariant forall objectId :: objectId in objects ==>
                                       objects[objectId] == if objectId in remaining then t.objects[objectId] else Retired(t, scan, objectId)
        invariant forall objectId :: objectId in missing <==> objectId in t.objects && objectId !in remaining && Orphaned(t, scan, objectId)
        decreases remaining
      {
        var objectId :| objectId in remaining;
        var active := HasActiveMembership(objectId);
        var absent := HasMissingMembership(objectId, scan);
        assert State().memberships == t.memberships;
        if objects[objectId].lifecycle == Active && absent && !active {
          objects := objects[objectId := objects[objectId].(lifecycle := Missing, queryable := false)];
          missing := missing + {objectId};
        }
        remaining := remaining - {objectId};
      }
      assert objects == CloseObjects(t, scan).objects;
    }

    /** reconcile: both updates in one transaction; a lost lease or a superseded revision changes nothing. */
    method Reconcile(scan: Scan, leaseHeld: bool, syncing: bool, crash: bool) returns (ok: bool, missing: set<string>)
      modifies this
      ensures ok <==> leaseHeld && syncing && !crash
      ensures State() == if ok then Reconciled(old(State()), scan) else old(State())
      ensures forall objectId :: objectId in missing <==>
                                 ok && objectId in objects && old(State()).objects[objectId].lifecycle == Active && objects[objectId].lifecycle == Missing
    {
      missing := {};
      if !leaseHeld || !syncing {
        return false, missing;
      }
      ghost var t := State();
      var before := memberships;
      memberships := map link | link in memberships :: Closed(Tables(objects, memberships), scan, link);
      assert State() == CloseMemberships(t, scan);
      if crash {
        memberships := before;
        return false, missing;
      }
      missing := CloseOrphans(scan);
      return true, missing;
    }

    /** The coverage switch of Handle: absence counts only in a complete scan that observed something. */
    method ReconcileCoverage(complete: bool, observed: nat, scan: Scan, leaseHeld: bool, syncing: bool, crash: bool)
      returns (coverage: Coverage, ok: bool)
      modifies this
      ensures coverage == if !complete then PartialCoverage else if observed == 0 then EmptyScan else Authoritative
      ensures State() == if complete && observed > 0 && leaseHeld && syncing && !crash then Reconciled(old(State()), scan) else old(State())
      ensures ok <==> coverage != Authoritative || (leaseHeld && syncing && !crash)
    {
      if !complete {
        return PartialCoverage, true;
      }
      if observed == 0 {
        return EmptyScan, true;
      }
      var missing;
      ok, missing := Reconcile(scan, leaseHeld, syncing, crash);
      coverage := Authoritative;
    }
  }
}
