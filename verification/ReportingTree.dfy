/** The reporting tree below a manager, computed as the recursive query does, and the row scopes built on it. */
module ReportingTree {
  import opened Wrappers

  type Id = int

  datatype Employee = Employee(managerId: Option<Id>, department: Option<string>)

  type Staff = map<Id, Employee>

  datatype Role = Intern | Executive | Manager | SeniorManager | HR | Admin | ITAdmin | Viewer

  datatype Caller = Caller(employeeId: Id, role: Role)

  // --- The recursive query ----------------------------------------------------------------------

  predicate ReportsTo(staff: Staff, e: Id, managers: set<Id>) {
    e in staff && staff[e].managerId.Some? && staff[e].managerId.value in managers
  }

  function Reports(staff: Staff, managers: set<Id>): set<Id> {
    set e | e in staff && ReportsTo(staff, e, managers)
  }

  /** Each round joins the rows of the previous one and drops those already produced, so a cycle of
      managers runs out of new rows. */
  function Expand(staff: Staff, produced: set<Id>, frontier: set<Id>): set<Id>
    requires frontier <= produced <= staff.Keys
    decreases staff.Keys - produced
  {
    var next := Reports(staff, frontier) - produced;
    if next == {} then produced else Expand(staff, produced + next, next)
  }

  function ReportingTreeIds(staff: Staff, managerId: Id): set<Id> {
    var direct := Reports(staff, {managerId});
    Expand(staff, direct, direct)
  }

  // --- What it computes -------------------------------------------------------------------------

  /** `links` manager links lead from `e` up to `root`. */
  ghost predicate Climbs(staff: Staff, e: Id, root: Id, links: nat)
    decreases links
  {
    && e in staff && staff[e].managerId.Some? && 0 < links
    && var boss := staff[e].managerId.value;
       if links == 1 then boss == root else Climbs(staff, boss, root, links - 1)
  }

  ghost predicate IsBelow(staff: Staff, e: Id, root: Id) {
    exists links: nat :: Climbs(staff, e, root, links)
  }

  ghost predicate ClosedUnderReports(staff: Staff, ids: set<Id>) { Reports(staff, ids) <= ids }

  lemma {:induction false} ExpandIsSound(staff: Staff, root: Id, produced: set<Id>, frontier: set<Id>)
    requires frontier <= produced <= staff.Keys
    requires forall e :: e in produced ==> IsBelow(staff, e, root)
    ensures produced <= Expand(staff, produced, frontier) <= staff.Keys
    ensures forall e :: e in Expand(staff, produced, frontier) ==> IsBelow(staff, e, root)
    decreases staff.Keys - produced
  {
    var next := Reports(staff, frontier) - produced;
    if next != {} {
      forall e | e in next
        ensures IsBelow(staff, e, root)
      {
        var links: nat :| Climbs(staff, staff[e].managerId.value, root, links);
        assert Climbs(staff, e, root, links + 1);
      }
      ExpandIsSound(staff, root, produced + next, next);
    }
  }

  lemma {:induction false} ExpandIsClosed(staff: Staff, produced: set<Id>, frontier: set<Id>)
    requires frontier <= produced <= staff.Keys
    requires Reports(staff, produced - frontier) <= produced
    ensures ClosedUnderReports(staff, Expand(staff, produced, frontier))
    decreases staff.Keys - produced
  {
    var next := Reports(staff, frontier) - produced;
    forall e | ReportsTo(staff, e, produced)
      ensures e in produced + next
    {
      assert ReportsTo(staff, e, produced - frontier) || ReportsTo(staff, e, frontier);
      assert e in Reports(staff, produced - frontier) || e in Reports(staff, frontier);
    }
    if next != {} {
      assert Reports(staff, (produced + next) - next) <= produced + next;
      ExpandIsClosed(staff, produced + next, next);
    }
  }

  lemma {:induction false} ClosedSetHoldsClimbers(staff: Staff, root: Id, ids: set<Id>, e: Id, links: nat)
    requires Reports(staff, {root}) <= ids && ClosedUnderReports(staff, ids)
    requires Climbs(staff, e, root, links)
    ensures e in ids
    decreases links
  {
    if links == 1 {
      assert ReportsTo(staff, e, {root});
      assert e in Reports(staff, {root});
    } else {
      ClosedSetHoldsClimbers(staff, root, ids, staff[e].managerId.value, links - 1);
      assert ReportsTo(staff, e, ids);
      assert e in Reports(staff, ids);
    }
  }

  lemma DirectReportsAreBelow(staff: Staff, root: Id)
    ensures forall e :: e in Reports(staff, {root}) ==> IsBelow(staff, e, root)
  {
    forall e | e in Reports(staff, {root})
      ensures IsBelow(staff, e, root)
    {
      assert Climbs(staff, e, root, 1);
    }
  }

  /** On any manager data, cyclic or not, the query returns exactly the employees that one or more
      manager links lead up to the root from. */
  lemma TreeIsExactlyThoseBelow(staff: Staff, root: Id, e: Id)
    ensures e in ReportingTreeIds(staff, root) <==> IsBelow(staff, e, root)
  {
    var direct, tree := Reports(staff, {root}), ReportingTreeIds(staff, root);
    DirectReportsAreBelow(staff, root);
    ExpandIsSound(staff, root, direct, direct);
    assert Reports(staff, direct - direct) == {};
    ExpandIsClosed(staff, direct, direct);
    if IsBelow(staff, e, root) {
      var links: nat :| Climbs(staff, e, root, links);
      ClosedSetHoldsClimbers(staff, root, tree, e, links);
    }
  }

  // --- Row scopes -------------------------------------------------------------------------------

  predicate SameDepartment(staff: Staff, a: Id, b: Id) {
    a in staff && b in staff && staff[a].department.Some? && staff[a].department == staff[b].department
  }

  predicate CanRead(staff: Staff, caller: Caller, target: Id) {
    target in staff && match caller.role
      case Admin => true
      case HR => true
      case Viewer => target == caller.employeeId
      case SeniorManager => SameDepartment(staff, caller.employeeId, target)
      case _ => target in ReportingTreeIds(staff, caller.employeeId) || target == caller.employeeId
  }

  predicate CanReadPersonal(staff: Staff, caller: Caller, target: Id) {
    target in staff && match caller.role
      case HR => true
      case Viewer => target == caller.employeeId
      case SeniorManager => SameDepartment(staff, caller.employeeId, target)
      case _ => staff[target].managerId == Some(caller.employeeId) || target == caller.employeeId
  }

  /** Who is in the general scope, by links and columns: everyone on file for an admin or HR, oneself for a viewer,
      one's own named department for a senior manager, and for all others oneself and everyone some links below. */
  lemma CanReadIff(staff: Staff, caller: Caller, target: Id)
    ensures CanRead(staff, caller, target) == (target in staff &&
      if caller.role == Admin || caller.role == HR then true
      else if caller.role == Viewer then target == caller.employeeId
      else if caller.role == SeniorManager then
        caller.employeeId in staff && staff[caller.employeeId].department.Some?
        && staff[target].department == staff[caller.employeeId].department
      else target == caller.employeeId || IsBelow(staff, target, caller.employeeId))
  {
    TreeIsExactlyThoseBelow(staff, caller.employeeId, target);
  }

  /** Who is in the personal scope: everyone for HR only. An admin is an ordinary caller here, who sees direct
      reports, one link below, and no further. */
  lemma CanReadPersonalIff(staff: Staff, caller: Caller, target: Id)
    ensures CanReadPersonal(staff, caller, target) == (target in staff &&
      if caller.role == HR then true
      else if caller.role == Viewer then target == caller.employeeId
      else if caller.role == SeniorManager then
        caller.employeeId in staff && staff[caller.employeeId].department.Some?
        && staff[target].department == staff[caller.employeeId].department
      else target == caller.employeeId || Climbs(staff, target, caller.employeeId, 1))
    ensures IsOrdinary(caller.role) ==>
      (CanReadPersonal(staff, caller, target) <==> CanReadPersonal(staff, caller.(role := Admin), target))
  {
  }

  predicate IsOrdinary(role: Role) { role in {Intern, Executive, Manager, ITAdmin} }

  lemma {:induction false} ClimbsCompose(staff: Staff, e: Id, middle: Id, root: Id, lower: nat, upper: nat)
    requires Climbs(staff, e, middle, lower) && Climbs(staff, middle, root, upper)
    ensures Climbs(staff, e, root, lower + upper)
    decreases lower
  {
    if lower > 1 {
      ClimbsCompose(staff, staff[e].managerId.value, middle, root, lower - 1, upper);
    }
  }

  lemma BelowIsTransitive(staff: Staff, e: Id, middle: Id, root: Id)
    requires IsBelow(staff, e, middle) && IsBelow(staff, middle, root)
    ensures IsBelow(staff, e, root)
  {
    var lower: nat :| Climbs(staff, e, middle, lower);
    var upper: nat :| Climbs(staff, middle, root, upper);
    ClimbsCompose(staff, e, middle, root, lower, upper);
  }

  /** Whoever is in the scope of someone in an ordinary caller's scope is in that caller's scope: a
      manager sees what their leads see. The same holds between two callers of any one role. */
  lemma ScopeIsTransitive(staff: Staff, caller: Caller, middle: Caller, target: Id)
    requires caller.role == middle.role || (IsOrdinary(caller.role) && IsOrdinary(middle.role))
    requires CanRead(staff, caller, middle.employeeId) && CanRead(staff, middle, target)
    ensures CanRead(staff, caller, target)
  {
    if IsOrdinary(caller.role) && middle.employeeId != caller.employeeId && target != middle.employeeId {
      TreeIsExactlyThoseBelow(staff, caller.employeeId, middle.employeeId);
      TreeIsExactlyThoseBelow(staff, middle.employeeId, target);
      BelowIsTransitive(staff, target, middle.employeeId, caller.employeeId);
      TreeIsExactlyThoseBelow(staff, caller.employeeId, target);
    }
  }

  /** Whatever a caller may read of someone's leave and notes, they may read of their work as well. */
  lemma PersonalScopeWithinScope(staff: Staff, caller: Caller, target: Id)
    requires CanReadPersonal(staff, caller, target)
    ensures CanRead(staff, caller, target)
  {
    if staff[target].managerId == Some(caller.employeeId) {
      assert Climbs(staff, target, caller.employeeId, 1);
      TreeIsExactlyThoseBelow(staff, caller.employeeId, target);
    }
  }

  ghost predicate PersonalChain(staff: Staff, role: Role, people: seq<Id>) {
    && |people| > 0
    && forall i :: 0 < i < |people| ==> CanReadPersonal(staff, Caller(people[i - 1], role), people[i])
  }

  ghost predicate ReachedByPersonalChain(staff: Staff, caller: Caller, target: Id) {
    exists people :: PersonalChain(staff, caller.role, people) && people[0] == caller.employeeId
      && people[|people| - 1] == target
  }

  /** For ordinary roles the general scope is the personal scope followed down any number of levels. */
  lemma ScopeIsPersonalScopeRepeated(staff: Staff, caller: Caller, target: Id)
    requires IsOrdinary(caller.role)
    ensures CanRead(staff, caller, target) <==> target in staff && ReachedByPersonalChain(staff, caller, target)
  {
    if CanRead(staff, caller, target) {
      if target == caller.employeeId {
        assert PersonalChain(staff, caller.role, [target]);
      } else {
        TreeIsExactlyThoseBelow(staff, caller.employeeId, target);
        var links: nat :| Climbs(staff, target, caller.employeeId, links);
        var people := ChainDown(staff, caller, target, links);
      }
    }
    forall people |
      target in staff && PersonalChain(staff, caller.role, people) && people[0] == caller.employeeId
      && people[|people| - 1] == target
      ensures CanRead(staff, caller, target)
    {
      ChainStaysInScope(staff, caller, people);
    }
  }

  lemma {:induction false} ChainDown(staff: Staff, caller: Caller, target: Id, links: nat) returns (people: seq<Id>)
    requires IsOrdinary(caller.role) && Climbs(staff, target, caller.employeeId, links)
    ensures PersonalChain(staff, caller.role, people) && people[0] == caller.employeeId
      && people[|people| - 1] == target
    decreases links
  {
    if links == 1 {
      people := [caller.employeeId, target];
    } else {
      var above := ChainDown(staff, caller, staff[target].managerId.value, links - 1);
      people := above + [target];
    }
  }

  lemma {:induction false} ChainStaysInScope(staff: Staff, caller: Caller, people: seq<Id>)
    requires IsOrdinary(caller.role) && PersonalChain(staff, caller.role, people) && people[0] == caller.employeeId
    ensures people[|people| - 1] == caller.employeeId || CanRead(staff, caller, people[|people| - 1])
  {
    if |people| > 1 {
      var above := people[..|people| - 1];
      var boss := Caller(above[|above| - 1], caller.role);
      ChainStaysInScope(staff, caller, above);
      PersonalScopeWithinScope(staff, boss, people[|people| - 1]);
      if boss.employeeId != caller.employeeId {
        ScopeIsTransitive(staff, caller, boss, people[|people| - 1]);
      }
    }
  }

  /** Everyone on file can read their own records, except a senior manager without a department. */
  lemma ReadsOneselfIff(staff: Staff, caller: Caller)
    ensures CanRead(staff, caller, caller.employeeId) <==>
      caller.employeeId in staff && (caller.role == SeniorManager ==> staff[caller.employeeId].department.Some?)
    ensures CanReadPersonal(staff, caller, caller.employeeId) <==> CanRead(staff, caller, caller.employeeId)
  {
  }

  /** An ordinary caller nobody reports to sees exactly what a viewer sees: themselves. */
  lemma NoReportsSeesOnlySelf(staff: Staff, caller: Caller, target: Id)
    requires IsOrdinary(caller.role) || caller.role == Viewer
    requires caller.role != Viewer ==> Reports(staff, {caller.employeeId}) == {}
    ensures CanRead(staff, caller, target) <==> target in staff && target == caller.employeeId
  {
  }
}
