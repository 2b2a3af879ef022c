/** Moving biometric sessions between two employees and collapsing the duplicates that leaves. The local
    day of an instant is a parameter: time zones are not modelled. */
module BiometricMerge {
  import opened Wrappers

  type EmployeeId = int
  type Instant = int
  type LocalDay = Instant -> int

  datatype Punch = Punch(
    employeeId: EmployeeId, clockIn: Instant, clockOut: Option<Instant>, clockOutSource: Option<string>)

  type GroupKey = (EmployeeId, int)

  function KeyOf(p: Punch, day: LocalDay): GroupKey { (p.employeeId, day(p.clockIn)) }

  // --- What merging means -----------------------------------------------------------------------

  predicate SameGroup(v: seq<Punch>, day: LocalDay, i: nat, j: nat)
    requires i < |v| && j < |v|
  {
    v[i].employeeId == v[j].employeeId && day(v[i].clockIn) == day(v[j].clockIn)
  }

  /** Earlier clock-in first; the sort is stable, so equal clock-ins keep their order. */
  predicate ComesBefore(v: seq<Punch>, i: nat, j: nat)
    requires i < |v| && j < |v|
  {
    v[i].clockIn < v[j].clockIn || (v[i].clockIn == v[j].clockIn && i < j)
  }

  /** The group of one key has a row, among the first `n`, ahead of every row of the other's. */
  ghost predicate OpensFirst(v: seq<Punch>, day: LocalDay, n: nat, key: GroupKey, other: GroupKey)
    requires n <= |v|
  {
    exists k :: 0 <= k < n && KeyOf(v[k], day) == key && forall l :: 0 <= l < n && KeyOf(v[l], day) == other ==> k < l
  }

  /** The order in which rows are given up: group by group as the groups first appear, sorted within each. */
  ghost predicate GivenUpBefore(v: seq<Punch>, day: LocalDay, i: nat, j: nat)
    requires i < |v| && j < |v|
  {
    if SameGroup(v, day, i, j) then ComesBefore(v, i, j)
    else OpensFirst(v, day, |v|, KeyOf(v[i], day), KeyOf(v[j], day))
  }

  ghost predicate IsKeeper(v: seq<Punch>, day: LocalDay, i: nat)
    requires i < |v|
  {
    forall j :: 0 <= j < |v| && j != i && SameGroup(v, day, i, j) ==> ComesBefore(v, i, j)
  }

  /** The positions below `n` that belong to a group, in order. */
  function Members(v: seq<Punch>, day: LocalDay, key: GroupKey, n: nat): seq<nat>
    requires n <= |v|
  {
    if n == 0 then [] else
    var earlier := Members(v, day, key, n - 1);
    if KeyOf(v[n - 1], day) == key then earlier + [n - 1] else earlier
  }

  function Later(a: Option<Instant>, b: Option<Instant>): Option<Instant> {
    if a.Some? && b.Some? then (if a.value < b.value then b else a) else if a.Some? then a else b
  }

  predicate Positions(members: seq<nat>, n: nat) {
    forall k :: 0 <= k < |members| ==> members[k] < n
  }

  predicate Ascending(members: seq<nat>) {
    forall a, b :: 0 <= a < b < |members| ==> members[a] < members[b]
  }

  /** The latest clock-out among some positions; None if none of them has one. */
  function LatestOut(v: seq<Punch>, members: seq<nat>): Option<Instant>
    requires Positions(members, |v|)
  {
    if members == [] then None
    else Later(LatestOut(v, members[..|members| - 1]), v[members[|members| - 1]].clockOut)
  }

  lemma {:induction false} MembersAre(v: seq<Punch>, day: LocalDay, key: GroupKey, n: nat)
    requires n <= |v|
    ensures Positions(Members(v, day, key, n), n) && Ascending(Members(v, day, key, n))
    ensures forall i: nat :: i in Members(v, day, key, n) <==> i < n && KeyOf(v[i], day) == key
  {
    if n > 0 {
      MembersAre(v, day, key, n - 1);
      var earlier := Members(v, day, key, n - 1);
      assert Ascending(earlier + [n - 1]);
    }
  }

  function GroupOut(v: seq<Punch>, day: LocalDay, i: nat): Option<Instant>
    requires i < |v|
  {
    MembersAre(v, day, KeyOf(v[i], day), |v|);
    LatestOut(v, Members(v, day, KeyOf(v[i], day), |v|))
  }

  /** A keeper takes its group's latest clock-out, and is marked when that changes it. */
  function Closed(p: Punch, latest: Option<Instant>): Punch {
    if latest == p.clockOut then p else p.(clockOut := latest, clockOutSource := Some("biometric"))
  }

  ghost function MergedPunch(v: seq<Punch>, day: LocalDay, i: nat): Punch
    requires i < |v|
  {
    if IsKeeper(v, day, i) then Closed(v[i], GroupOut(v, day, i)) else v[i]
  }

  ghost function Merged(v: seq<Punch>, day: LocalDay): seq<Punch> {
    seq(|v|, i requires 0 <= i < |v| => MergedPunch(v, day, i))
  }

  function Swapped(v: seq<Punch>, a: EmployeeId, b: EmployeeId): seq<Punch> {
    seq(|v|, i requires 0 <= i < |v| => v[i].(employeeId := if v[i].employeeId == a then b else a))
  }

  function Moved(v: seq<Punch>, a: EmployeeId, b: EmployeeId): seq<Punch> {
    seq(|v|, i requires 0 <= i < |v| => v[i].(employeeId := if v[i].employeeId == a then b else v[i].employeeId))
  }

  // --- The session rows -------------------------------------------------------------------------

  class WorkSession {
    var employeeId: EmployeeId
    var clockInAt: Instant
    var clockOutAt: Option<Instant>
    var clockOutSource: Option<string>

    constructor (employeeId: EmployeeId, clockInAt: Instant)
      ensures Value() == Punch(employeeId, clockInAt, None, None)
    {
      this.employeeId, this.clockInAt, this.clockOutAt, this.clockOutSource := employeeId, clockInAt, None, None;
    }

    function Value(): Punch
      reads this
    {
      Punch(employeeId, clockInAt, clockOutAt, clockOutSource)
    }
  }

  ghost predicate Distinct(rows: seq<WorkSession>) {
    forall i, j :: 0 <= i < j < |rows| ==> rows[i] != rows[j]
  }

  ghost function Values(rows: seq<WorkSession>): seq<Punch>
    reads rows
  {
    seq(|rows|, i requires 0 <= i < |rows| reads rows => rows[i].Value())
  }

  method SwapOwners(rows: seq<WorkSession>, a: EmployeeId, b: EmployeeId)
    requires Distinct(rows)
    modifies rows
    ensures Values(rows) == Swapped(old(Values(rows)), a, b)
  {
    for n := 0 to |rows|
      invariant forall i :: 0 <= i < n ==>
        rows[i].Value() == old(rows[i].Value()).(employeeId := if old(rows[i].employeeId) == a then b else a)
      invariant forall i :: n <= i < |rows| ==> rows[i].Value() == old(rows[i].Value())
    {
      rows[n].employeeId := if rows[n].employeeId == a then b else a;
    }
  }

  method MoveOwners(rows: seq<WorkSession>, a: EmployeeId, b: EmployeeId)
    requires Distinct(rows)
    modifies rows
    ensures Values(rows) == Moved(old(Values(rows)), a, b)
  {
    for n := 0 to |rows|
      invariant forall i :: 0 <= i < n ==>
        rows[i].Value() == old(rows[i].Value()).(
          employeeId := if old(rows[i].employeeId) == a then b else old(rows[i].employeeId))
      invariant forall i :: n <= i < |rows| ==> rows[i].Value() == old(rows[i].Value())
    {
      if rows[n].employeeId == a {
        rows[n].employeeId := b;
      }
    }
  }

  /** The rows still hold, at these positions, what the snapshot says. */
  ghost predicate Holds(rows: seq<WorkSession>, v: seq<Punch>, members: seq<nat>)
    requires |rows| == |v| && Positions(members, |v|)
    reads rows
  {
    forall k :: 0 <= k < |members| ==> rows[members[k]].Value() == v[members[k]]
  }

  ghost predicate Ordered(v: seq<Punch>, members: seq<nat>)
    requires Positions(members, |v|)
  {
    forall a, b :: 0 <= a < b < |members| ==> ComesBefore(v, members[a], members[b])
  }

  /** Stable insertion sort of a group's positions by clock-in. */
  method SortByClockIn(rows: seq<WorkSession>, group: seq<nat>, ghost v: seq<Punch>) returns (sorted: seq<nat>)
    requires |rows| == |v| && Positions(group, |v|) && Ascending(group) && Holds(rows, v, group)
    ensures |sorted| == |group| && Positions(sorted, |v|) && Ordered(v, sorted)
    ensures forall i :: i in sorted <==> i in group
  {
    sorted := [];
    for n := 0 to |group|
      invariant |sorted| == n && Positions(sorted, |v|) && Ordered(v, sorted)
      invariant forall i :: i in sorted <==> i in group[..n]
    {
      var x, p := group[n], n;
      assert forall a :: 0 <= a < n ==> sorted[a] < x && rows[sorted[a]].Value() == v[sorted[a]] by {
        forall a | 0 <= a < n
          ensures sorted[a] < x && rows[sorted[a]].Value() == v[sorted[a]]
        {
          assert sorted[a] in group[..n];
        }
      }
      while p > 0 && rows[x].clockInAt < rows[sorted[p - 1]].clockInAt
        invariant 0 <= p <= n
        invariant forall a :: p <= a < n ==> v[x].clockIn < v[sorted[a]].clockIn
      {
        p := p - 1;
      }
      InsertOrdered(v, sorted, x, p);
      sorted := sorted[..p] + [x] + sorted[p..];
    }
  }

  lemma InsertOrdered(v: seq<Punch>, sorted: seq<nat>, x: nat, p: nat)
    requires p <= |sorted| && x < |v| && Positions(sorted, |v|) && Ordered(v, sorted)
    requires forall a :: 0 <= a < |sorted| ==> sorted[a] < x
    requires forall a :: p <= a < |sorted| ==> v[x].clockIn < v[sorted[a]].clockIn
    requires p > 0 ==> v[sorted[p - 1]].clockIn <= v[x].clockIn
    ensures var longer := sorted[..p] + [x] + sorted[p..];
      Positions(longer, |v|) && Ordered(v, longer) && forall i :: i in longer <==> i in sorted || i == x
  {
  }

  // --- The latest clock-out does not depend on the order --------------------------------------------

  ghost predicate IsLatestOf(v: seq<Punch>, members: seq<nat>, latest: Option<Instant>)
    requires Positions(members, |v|)
  {
    && (forall k :: 0 <= k < |members| && v[members[k]].clockOut.Some? ==>
      latest.Some? && v[members[k]].clockOut.value <= latest.value)
    && (latest.Some? ==> exists k :: 0 <= k < |members| && v[members[k]].clockOut == latest)
  }

  lemma {:induction false} LatestOutIsLatest(v: seq<Punch>, members: seq<nat>)
    requires Positions(members, |v|)
    ensures IsLatestOf(v, members, LatestOut(v, members))
  {
    if members != [] {
      var n := |members| - 1;
      var earlier := members[..n];
      LatestOutIsLatest(v, earlier);
      var before, after := LatestOut(v, earlier), LatestOut(v, members);
      if after.Some? {
        if v[members[n]].clockOut == after {
        } else {
          var k :| 0 <= k < n && v[earlier[k]].clockOut == before;
          assert v[members[k]].clockOut == after;
        }
      }
      forall k | 0 <= k < |members| && v[members[k]].clockOut.Some?
        ensures after.Some? && v[members[k]].clockOut.value <= after.value
      {
        if k < n {
          assert earlier[k] == members[k];
        }
      }
    }
  }

  lemma LatestIsUnique(v: seq<Punch>, members: seq<nat>, members': seq<nat>, a: Option<Instant>, b: Option<Instant>)
    requires Positions(members, |v|) && Positions(members', |v|)
    requires forall i :: i in members <==> i in members'
    requires IsLatestOf(v, members, a) && IsLatestOf(v, members', b)
    ensures a == b
  {
    LatestReaches(v, members, members', a, b);
    LatestReaches(v, members', members, b, a);
  }

  lemma LatestReaches(v: seq<Punch>, members: seq<nat>, members': seq<nat>, a: Option<Instant>, b: Option<Instant>)
    requires Positions(members, |v|) && Positions(members', |v|)
    requires forall i :: i in members ==> i in members'
    requires IsLatestOf(v, members, a) && IsLatestOf(v, members', b)
    ensures a.Some? ==> b.Some? && a.value <= b.value
  {
    if a.Some? {
      var k :| 0 <= k < |members| && v[members[k]].clockOut == a;
      assert members[k] in members';
      var k' :| 0 <= k' < |members'| && members'[k'] == members[k];
    }
  }

  // --- Merging one group --------------------------------------------------------------------------

  method LatestEnd(rows: seq<WorkSession>, sorted: seq<nat>, ghost v: seq<Punch>) returns (latest: Option<Instant>)
    requires |rows| == |v| && Positions(sorted, |v|) && Holds(rows, v, sorted)
    ensures latest == LatestOut(v, sorted)
  {
    latest := None;
    for n := 0 to |sorted|
      invariant latest == LatestOut(v, sorted[..n])
    {
      assert sorted[..n + 1][..n] == sorted[..n];
      var end := rows[sorted[n]].clockOutAt;
      if end.Some? && (latest.None? || latest.value < end.value) {
        latest := end;
      }
    }
    assert sorted[..|sorted|] == sorted;
  }

  ghost predicate IsGroup(v: seq<Punch>, day: LocalDay, group: seq<nat>)
  {
    group != [] && Positions(group, |v|) && group == Members(v, day, KeyOf(v[group[0]], day), |v|)
  }

  lemma GroupFacts(v: seq<Punch>, day: LocalDay, group: seq<nat>)
    requires IsGroup(v, day, group)
    ensures group != [] && Positions(group, |v|) && Ascending(group)
    ensures forall i, j :: i in group && j in group ==> SameGroup(v, day, i, j)
    ensures forall i: nat, j: nat :: i in group && j < |v| && SameGroup(v, day, i, j) ==> j in group
    ensures forall i :: i in group ==> GroupOut(v, day, i) == LatestOut(v, group)
  {
    MembersAre(v, day, KeyOf(v[group[0]], day), |v|);
    assert group[0] in group;
    forall i | i in group
      ensures KeyOf(v[i], day) == KeyOf(v[group[0]], day)
    {
    }
  }

  lemma HeadIsKeeper(v: seq<Punch>, day: LocalDay, group: seq<nat>, sorted: seq<nat>)
    requires IsGroup(v, day, group) && Positions(sorted, |v|) && Ordered(v, sorted) && sorted != []
    requires forall i :: i in sorted <==> i in group
    ensures forall i :: i in group ==> (IsKeeper(v, day, i) <==> i == sorted[0])
    ensures forall i :: i in sorted[1..] <==> i in group && i != sorted[0]
  {
    GroupFacts(v, day, group);
    assert sorted[0] in group;
    forall j | 0 <= j < |v| && j != sorted[0] && SameGroup(v, day, sorted[0], j)
      ensures ComesBefore(v, sorted[0], j)
    {
      assert j in sorted;
    }
    forall i | i in group && i != sorted[0]
      ensures !IsKeeper(v, day, i)
    {
      assert ComesBefore(v, sorted[0], i) && SameGroup(v, day, i, sorted[0]);
    }
    forall i
      ensures i in sorted[1..] <==> i in group && i != sorted[0]
    {
      assert sorted == [sorted[0]] + sorted[1..];
      if i in sorted[1..] {
        var k :| 0 < k < |sorted| && sorted[k] == i;
        assert ComesBefore(v, sorted[0], sorted[k]);
      }
    }
  }

  /** The rows at these positions have become what merging makes of them. */
  ghost predicate AreMerged(rows: seq<WorkSession>, v: seq<Punch>, day: LocalDay, members: seq<nat>)
    requires |rows| == |v| && Positions(members, |v|)
    reads rows
  {
    forall k :: 0 <= k < |members| ==> rows[members[k]].Value() == MergedPunch(v, day, members[k])
  }

  method MergeGroup(rows: seq<WorkSession>, group: seq<nat>, ghost v: seq<Punch>, ghost day: LocalDay)
    returns (extras: seq<nat>)
    requires Distinct(rows) && |rows| == |v| && IsGroup(v, day, group) && Holds(rows, v, group)
    modifies rows
    ensures AreMerged(rows, v, day, group)
    ensures forall i :: 0 <= i < |rows| && i !in group ==> rows[i].Value() == old(rows[i].Value())
    ensures Positions(extras, |v|) && Ordered(v, extras)
    ensures forall i :: i in extras <==> i in group && !IsKeeper(v, day, i)
  {
    hide Members, LatestOut, GroupOut, IsKeeper, IsGroup;
    GroupFacts(v, day, group);
    if |group| < 2 {
      SingleGroup(v, day, group);
      return [];
    }
    var sorted := SortByClockIn(rows, group, v);
    assert Holds(rows, v, sorted) by {
      forall k | 0 <= k < |sorted|
        ensures rows[sorted[k]].Value() == v[sorted[k]]
      {
        assert sorted[k] in group;
      }
    }
    HeadIsKeeper(v, day, group, sorted);
    OrderedTail(v, sorted);
    extras := sorted[1..];
    var latest := LatestEnd(rows, sorted, v);
    SortedLatest(v, day, group, sorted);
    CloseKeeper(rows, sorted[0], latest);
    forall k | 0 <= k < |group|
      ensures rows[group[k]].Value() == MergedPunch(v, day, group[k])
    {
      assert group[k] in group;
    }
  }

  lemma OrderedTail(v: seq<Punch>, sorted: seq<nat>)
    requires sorted != [] && Positions(sorted, |v|) && Ordered(v, sorted)
    ensures Positions(sorted[1..], |v|) && Ordered(v, sorted[1..])
  {
  }

  lemma SortedLatest(v: seq<Punch>, day: LocalDay, group: seq<nat>, sorted: seq<nat>)
    requires IsGroup(v, day, group) && Positions(sorted, |v|) && sorted != []
    requires forall i :: i in sorted <==> i in group
    ensures sorted[0] in group && LatestOut(v, sorted) == GroupOut(v, day, sorted[0])
    ensures var (own, latest) := (v[sorted[0]].clockOut, LatestOut(v, sorted));
      own.Some? ==> latest.Some? && own.value <= latest.value
  {
    GroupFacts(v, day, group);
    assert sorted[0] in sorted;
    LatestOutIsLatest(v, sorted);
    LatestOutIsLatest(v, group);
    LatestIsUnique(v, sorted, group, LatestOut(v, sorted), LatestOut(v, group));
  }

  method CloseKeeper(rows: seq<WorkSession>, keeper: nat, latest: Option<Instant>)
    requires Distinct(rows) && keeper < |rows|
    requires rows[keeper].clockOutAt.Some? ==> latest.Some? && rows[keeper].clockOutAt.value <= latest.value
    modifies rows
    ensures rows[keeper].Value() == Closed(old(rows[keeper].Value()), latest)
    ensures forall i :: 0 <= i < |rows| && i != keeper ==> rows[i].Value() == old(rows[i].Value())
  {
    if latest.Some? {
      var current := rows[keeper].clockOutAt;
      if current.None? || current.value < latest.value {
        rows[keeper].clockOutAt := latest;
        rows[keeper].clockOutSource := Some("biometric");
      }
    }
  }

  lemma SingleGroup(v: seq<Punch>, day: LocalDay, group: seq<nat>)
    requires IsGroup(v, day, group) && |group| == 1
    ensures IsKeeper(v, day, group[0]) && MergedPunch(v, day, group[0]) == v[group[0]]
  {
    GroupFacts(v, day, group);
    forall j | 0 <= j < |v| && SameGroup(v, day, group[0], j)
      ensures j == group[0]
    {
      assert j in group;
    }
    assert group[..0] == [];
    assert LatestOut(v, group) == v[group[0]].clockOut;
  }

  // --- Merging all of them ------------------------------------------------------------------------

  /** The groups of the first `n` rows, as the source collects them: by key, in order of appearance. */
  ghost predicate Grouped(v: seq<Punch>, day: LocalDay, n: nat, order: seq<GroupKey>, grouped: map<GroupKey, seq<nat>>)
    requires n <= |v|
  {
    && (forall a, b :: 0 <= a < b < |order| ==> order[a] != order[b])
    && (forall key :: key in grouped <==> key in order)
    && (forall i :: 0 <= i < n ==> KeyOf(v[i], day) in grouped)
    && (forall key :: key in grouped ==> grouped[key] == Members(v, day, key, n) && grouped[key] != [])
  }

  ghost predicate InOpeningOrder(v: seq<Punch>, day: LocalDay, n: nat, order: seq<GroupKey>)
    requires n <= |v|
  {
    forall a, b :: 0 <= a < b < |order| ==> OpensFirst(v, day, n, order[a], order[b])
  }

  lemma OpeningOrderStep(v: seq<Punch>, day: LocalDay, n: nat, order: seq<GroupKey>)
    requires n < |v| && InOpeningOrder(v, day, n, order)
    requires forall key :: key in order ==> exists i :: 0 <= i < n && KeyOf(v[i], day) == key
    requires forall i :: 0 <= i < n ==> KeyOf(v[i], day) in order
    ensures InOpeningOrder(v, day, n + 1, if KeyOf(v[n], day) in order then order else order + [KeyOf(v[n], day)])
  {
    hide OpensFirst;
    var key := KeyOf(v[n], day);
    var longer := if key in order then order else order + [key];
    forall a, b | 0 <= a < b < |longer|
      ensures OpensFirst(v, day, n + 1, longer[a], longer[b])
    {
      if b < |order| {
        OpensFirstStays(v, day, n, order[a], order[b]);
      } else {
        assert order[a] in order;
        NewGroupOpensLast(v, day, n, order[a]);
      }
    }
  }

  lemma OpensFirstStays(v: seq<Punch>, day: LocalDay, n: nat, key: GroupKey, other: GroupKey)
    requires n < |v| && OpensFirst(v, day, n, key, other)
    ensures OpensFirst(v, day, n + 1, key, other)
  {
    hide KeyOf;
    var k :| 0 <= k < n && KeyOf(v[k], day) == key && forall l :: 0 <= l < n && KeyOf(v[l], day) == other ==> k < l;
    assert KeyOf(v[k], day) == key && forall l :: 0 <= l < n + 1 && KeyOf(v[l], day) == other ==> k < l;
  }

  lemma NewGroupOpensLast(v: seq<Punch>, day: LocalDay, n: nat, key: GroupKey)
    requires n < |v| && exists k :: 0 <= k < n && KeyOf(v[k], day) == key
    requires forall i :: 0 <= i < n ==> KeyOf(v[i], day) != KeyOf(v[n], day)
    ensures OpensFirst(v, day, n + 1, key, KeyOf(v[n], day))
  {
    hide KeyOf;
    var k :| 0 <= k < n && KeyOf(v[k], day) == key;
    assert forall l :: 0 <= l < n + 1 && KeyOf(v[l], day) == KeyOf(v[n], day) ==> k < l;
  }

  lemma KeysHaveRows(v: seq<Punch>, day: LocalDay, n: nat, order: seq<GroupKey>, grouped: map<GroupKey, seq<nat>>)
    requires n <= |v| && Grouped(v, day, n, order, grouped)
    ensures forall key :: key in order ==> exists i :: 0 <= i < n && KeyOf(v[i], day) == key
    ensures forall i :: 0 <= i < n ==> KeyOf(v[i], day) in order
    ensures forall key :: key in grouped <==> key in order
  {
    forall key | key in order
      ensures exists i :: 0 <= i < n && KeyOf(v[i], day) == key
    {
      MembersAre(v, day, key, n);
      assert grouped[key][0] in grouped[key];
    }
  }

  lemma GroupedStep(v: seq<Punch>, day: LocalDay, n: nat, order: seq<GroupKey>, grouped: map<GroupKey, seq<nat>>)
    requires n < |v| && Grouped(v, day, n, order, grouped)
    ensures var key := KeyOf(v[n], day);
      if key in grouped then Grouped(v, day, n + 1, order, grouped[key := grouped[key] + [n]])
      else Grouped(v, day, n + 1, order + [key], grouped[key := [n]])
  {
    var key := KeyOf(v[n], day);
    if key !in grouped {
      NoMembers(v, day, key, n);
    }
  }

  lemma {:induction false} NoMembers(v: seq<Punch>, day: LocalDay, key: GroupKey, n: nat)
    requires n <= |v| && forall i :: 0 <= i < n ==> KeyOf(v[i], day) != key
    ensures Members(v, day, key, n) == []
  {
    if n > 0 {
      NoMembers(v, day, key, n - 1);
    }
  }

  lemma NothingOpened(v: seq<Punch>, day: LocalDay)
    ensures InOpeningOrder(v, day, 0, []) && Grouped(v, day, 0, [], map[])
  {
  }

  method GroupByDay(rows: seq<WorkSession>, day: LocalDay, ghost v: seq<Punch>)
    returns (order: seq<GroupKey>, grouped: map<GroupKey, seq<nat>>)
    requires |rows| == |v| && forall i :: 0 <= i < |rows| ==> rows[i].Value() == v[i]
    ensures Grouped(v, day, |v|, order, grouped) && InOpeningOrder(v, day, |v|, order)
  {
    hide InOpeningOrder, Grouped, Members;
    order, grouped := [], map[];
    NothingOpened(v, day);
    for n := 0 to |rows|
      invariant Grouped(v, day, n, order, grouped) && InOpeningOrder(v, day, n, order)
    {
      GroupedStep(v, day, n, order, grouped);
      KeysHaveRows(v, day, n, order, grouped);
      OpeningOrderStep(v, day, n, order);
      assert rows[n].Value() == v[n];
      var key := (rows[n].employeeId, day(rows[n].clockInAt));
      if key in grouped {
        grouped := grouped[key := grouped[key] + [n]];
      } else {
        order, grouped := order + [key], grouped[key := [n]];
      }
    }
  }

  lemma GroupedAreGroups(v: seq<Punch>, day: LocalDay, order: seq<GroupKey>, grouped: map<GroupKey, seq<nat>>,
      key: GroupKey)
    requires Grouped(v, day, |v|, order, grouped) && key in grouped
    ensures IsGroup(v, day, grouped[key])
    ensures forall i: nat :: i in grouped[key] <==> i < |v| && KeyOf(v[i], day) == key
  {
    MembersAre(v, day, key, |v|);
    assert grouped[key][0] in grouped[key];
  }

  /** After the first `m` groups, their rows are merged, the others are as they were, and exactly the
      merged groups' rows that are not kept have been set aside, each once. */
  ghost predicate MergedSoFar(rows: seq<WorkSession>, v: seq<Punch>, day: LocalDay, order: seq<GroupKey>, m: nat,
      aside: seq<nat>)
    requires |rows| == |v| && m <= |order|
    reads rows
  {
    && (forall i :: 0 <= i < |v| ==>
          rows[i].Value() == if KeyOf(v[i], day) in order[..m] then MergedPunch(v, day, i) else v[i])
    && Positions(aside, |v|)
    && (forall i: nat :: i in aside <==> i < |v| && KeyOf(v[i], day) in order[..m] && !IsKeeper(v, day, i))
    && (forall a, b :: 0 <= a < b < |aside| ==> aside[a] != aside[b])
  }

  ghost predicate AsideInOrder(v: seq<Punch>, day: LocalDay, aside: seq<nat>)
    requires Positions(aside, |v|)
  {
    forall a, b :: 0 <= a < b < |aside| ==> GivenUpBefore(v, day, aside[a], aside[b])
  }

  lemma ExtrasInOrder(v: seq<Punch>, day: LocalDay, order: seq<GroupKey>, m: nat, aside: seq<nat>, extras: seq<nat>)
    requires m < |order| && InOpeningOrder(v, day, |v|, order) && order[m] !in order[..m]
    requires Positions(aside, |v|) && AsideInOrder(v, day, aside)
    requires forall i :: i in aside ==> KeyOf(v[i], day) in order[..m]
    requires Positions(extras, |v|) && Ordered(v, extras) && forall i :: i in extras ==> KeyOf(v[i], day) == order[m]
    ensures AsideInOrder(v, day, aside + extras)
  {
    var all := aside + extras;
    forall a, b | 0 <= a < b < |all|
      ensures GivenUpBefore(v, day, all[a], all[b])
    {
      if b < |aside| {
        assert GivenUpBefore(v, day, aside[a], aside[b]);
      } else {
        assert all[b] in extras;
        if |aside| <= a {
          assert all[a] in extras && ComesBefore(v, extras[a - |aside|], extras[b - |aside|]);
        } else {
          assert all[a] in aside;
          var c :| 0 <= c < m && order[c] == KeyOf(v[all[a]], day);
          assert OpensFirst(v, day, |v|, order[c], order[m]);
        }
      }
    }
  }

  ghost predicate ListedInOrder(rows: seq<WorkSession>, v: seq<Punch>, day: LocalDay, redundant: seq<WorkSession>)
    requires |rows| == |v|
  {
    forall a, b, i, j ::
      0 <= a < b < |redundant| && 0 <= i < |rows| && 0 <= j < |rows|
      && redundant[a] == rows[i] && redundant[b] == rows[j]
      ==> GivenUpBefore(v, day, i, j)
  }

  lemma AsideAreListed(rows: seq<WorkSession>, v: seq<Punch>, day: LocalDay, aside: seq<nat>,
      redundant: seq<WorkSession>)
    requires |rows| == |v| && Distinct(rows) && Positions(aside, |v|) && AsideInOrder(v, day, aside)
    requires |redundant| == |aside| && forall k :: 0 <= k < |aside| ==> redundant[k] == rows[aside[k]]
    ensures ListedInOrder(rows, v, day, redundant)
  {
    hide GivenUpBefore;
    forall a, b, i, j | 0 <= a < b < |redundant| && 0 <= i < |rows| && 0 <= j < |rows|
      && redundant[a] == rows[i] && redundant[b] == rows[j]
      ensures GivenUpBefore(v, day, i, j)
    {
      assert aside[a] == i && aside[b] == j;
    }
  }

  /** Collapses each person's sessions of a local day into the earliest, and returns the others. */
  method MergeSameDay(rows: seq<WorkSession>, day: LocalDay) returns (redundant: seq<WorkSession>)
    requires Distinct(rows)
    modifies rows
    ensures Values(rows) == Merged(old(Values(rows)), day)
    ensures forall i :: 0 <= i < |rows| ==> (rows[i] in redundant <==> !IsKeeper(old(Values(rows)), day, i))
    ensures Distinct(redundant) && forall r :: r in redundant ==> r in rows
    ensures ListedInOrder(rows, old(Values(rows)), day, redundant)
  {
    hide AsideInOrder, InOpeningOrder, ListedInOrder, IsKeeper, MergedPunch, Ordered, IsGroup;
    ghost var v := Values(rows);
    var order, grouped := GroupByDay(rows, day, v);
    var aside: seq<nat> := [];
    NothingAside(v, day);
    for m := 0 to |order|
      invariant MergedSoFar(rows, v, day, order, m, aside) && AsideInOrder(v, day, aside)
    {
      var key := order[m];
      GroupedAreGroups(v, day, order, grouped, key);
      var extras := MergeNext(rows, v, day, order, m, grouped[key], aside);
      ExtrasInOrder(v, day, order, m, aside, extras);
      aside := aside + extras;
    }
    assert order[..|order|] == order;
    redundant := seq(|aside|, k requires 0 <= k < |aside| && Positions(aside, |rows|) => rows[aside[k]]);
    AsideAreRedundant(rows, v, day, aside, redundant);
    AsideAreListed(rows, v, day, aside, redundant);
  }

  lemma NothingAside(v: seq<Punch>, day: LocalDay)
    ensures AsideInOrder(v, day, [])
  {
  }

  lemma AsideAreRedundant(rows: seq<WorkSession>, v: seq<Punch>, day: LocalDay, aside: seq<nat>,
      redundant: seq<WorkSession>)
    requires |rows| == |v| && Distinct(rows) && Positions(aside, |v|)
    requires forall a, b :: 0 <= a < b < |aside| ==> aside[a] != aside[b]
    requires forall i: nat :: i in aside <==> i < |v| && !IsKeeper(v, day, i)
    requires |redundant| == |aside| && forall k :: 0 <= k < |aside| ==> redundant[k] == rows[aside[k]]
    ensures forall i :: 0 <= i < |rows| ==> (rows[i] in redundant <==> !IsKeeper(v, day, i))
    ensures Distinct(redundant) && forall r :: r in redundant ==> r in rows
  {
  }

  method MergeNext(rows: seq<WorkSession>, ghost v: seq<Punch>, ghost day: LocalDay, ghost order: seq<GroupKey>,
      ghost m: nat, group: seq<nat>, ghost aside: seq<nat>)
    returns (extras: seq<nat>)
    requires Distinct(rows) && |rows| == |v| && m < |order| && MergedSoFar(rows, v, day, order, m, aside)
    requires IsGroup(v, day, group) && order[m] !in order[..m]
    requires forall i: nat :: i in group <==> i < |v| && KeyOf(v[i], day) == order[m]
    modifies rows
    ensures MergedSoFar(rows, v, day, order, m + 1, aside + extras)
    ensures Positions(extras, |v|) && Ordered(v, extras) && forall i :: i in extras ==> KeyOf(v[i], day) == order[m]
  {
    hide IsKeeper, IsGroup, GroupOut;
    GroupFacts(v, day, group);
    forall k | 0 <= k < |group|
      ensures rows[group[k]].Value() == v[group[k]]
    {
      assert group[k] in group;
    }
    extras := MergeGroup(rows, group, v, day);
    assert order[..m + 1] == order[..m] + [order[m]];
    forall i | 0 <= i < |v| && i in group
      ensures rows[i].Value() == MergedPunch(v, day, i)
    {
      var k :| 0 <= k < |group| && group[k] == i;
    }
    ExtrasJoin(v, day, order, m, group, aside, extras);
  }

  lemma ExtrasJoin(v: seq<Punch>, day: LocalDay, order: seq<GroupKey>, m: nat, group: seq<nat>, aside: seq<nat>,
      extras: seq<nat>)
    requires m < |order| && order[m] !in order[..m]
    requires forall i: nat :: i in group <==> i < |v| && KeyOf(v[i], day) == order[m]
    requires Positions(aside, |v|) && Positions(extras, |v|) && Ordered(v, extras)
    requires forall i: nat :: i in aside <==> i < |v| && KeyOf(v[i], day) in order[..m] && !IsKeeper(v, day, i)
    requires forall i :: i in extras <==> i in group && !IsKeeper(v, day, i)
    requires forall a, b :: 0 <= a < b < |aside| ==> aside[a] != aside[b]
    ensures var all := aside + extras;
      && Positions(all, |v|)
      && (forall i: nat :: i in all <==> i < |v| && KeyOf(v[i], day) in order[..m + 1] && !IsKeeper(v, day, i))
      && (forall a, b :: 0 <= a < b < |all| ==> all[a] != all[b])
  {
    var all := aside + extras;
    assert order[..m + 1] == order[..m] + [order[m]];
    forall a, b | 0 <= a < b < |all|
      ensures all[a] != all[b]
    {
      if a < |aside| <= b {
        assert all[a] in aside && all[b] in extras;
      } else if |aside| <= a {
        assert ComesBefore(v, extras[a - |aside|], extras[b - |aside|]);
      }
    }
  }

  // --- What is kept --------------------------------------------------------------------------------

  /** Every group has a keeper, and only one. */
  lemma OneKeeperPerGroup(v: seq<Punch>, day: LocalDay, i: nat)
    requires i < |v|
    ensures exists k :: 0 <= k < |v| && SameGroup(v, day, i, k) && IsKeeper(v, day, k)
    ensures forall k, l ::
      0 <= k < |v| && 0 <= l < |v| && SameGroup(v, day, k, l) && IsKeeper(v, day, k) && IsKeeper(v, day, l) ==> k == l
  {
    var k := FirstOfGroup(v, day, i, |v|);
    assert IsKeeper(v, day, k);
    forall k, l | 0 <= k < |v| && 0 <= l < |v| && SameGroup(v, day, k, l) && IsKeeper(v, day, k) && IsKeeper(v, day, l)
      ensures k == l
    {
      KeeperIsUnique(v, day, k, l);
    }
  }

  lemma KeeperIsUnique(v: seq<Punch>, day: LocalDay, k: nat, l: nat)
    requires k < |v| && l < |v| && SameGroup(v, day, k, l) && IsKeeper(v, day, k) && IsKeeper(v, day, l)
    ensures k == l
  {
    assert k != l ==> ComesBefore(v, k, l) && ComesBefore(v, l, k);
  }

  lemma {:induction false} FirstOfGroup(v: seq<Punch>, day: LocalDay, i: nat, n: nat) returns (k: nat)
    requires i < |v| && n <= |v|
    ensures k < |v| && SameGroup(v, day, i, k)
    ensures forall j :: 0 <= j < n && j != k && SameGroup(v, day, i, j) ==> ComesBefore(v, k, j)
  {
    if n == 0 {
      return i;
    }
    k := FirstOfGroup(v, day, i, n - 1);
    if n - 1 != k && SameGroup(v, day, i, n - 1) && !ComesBefore(v, k, n - 1) {
      k := n - 1;
    }
  }

  /** A keeper holds its group's earliest clock-in and, after merging, its latest clock-out: one that
      some row of the group had and that none exceeds, or none if no row had any. */
  lemma KeeperSpansGroup(v: seq<Punch>, day: LocalDay, i: nat, j: nat)
    requires i < |v| && j < |v| && IsKeeper(v, day, i) && SameGroup(v, day, i, j)
    ensures var (before, after) := (v[i], Merged(v, day)[i]);
      && after.employeeId == before.employeeId && after.clockIn == before.clockIn <= v[j].clockIn
      && (v[j].clockOut.Some? ==> after.clockOut.Some? && v[j].clockOut.value <= after.clockOut.value)
      && (after.clockOut.Some? ==>
            exists k :: 0 <= k < |v| && SameGroup(v, day, i, k) && v[k].clockOut == after.clockOut)
      && after.clockOutSource
         == (if after.clockOut == before.clockOut then before.clockOutSource else Some("biometric"))
  {
    hide LatestOut;
    var members := Members(v, day, KeyOf(v[i], day), |v|);
    MembersAre(v, day, KeyOf(v[i], day), |v|);
    LatestOutIsLatest(v, members);
    assert Merged(v, day)[i].clockOut == LatestOut(v, members);
    assert j in members;
    if LatestOut(v, members).Some? {
      var m :| 0 <= m < |members| && v[members[m]].clockOut == LatestOut(v, members);
      assert members[m] in members;
    }
  }

  ghost function KeptPositions(v: seq<Punch>, day: LocalDay, n: nat): (kept: seq<nat>)
    requires n <= |v|
    ensures Positions(kept, n) && Ascending(kept)
    ensures forall i: nat :: i in kept <==> i < n && IsKeeper(v, day, i)
  {
    if n == 0 then [] else
    var earlier := KeptPositions(v, day, n - 1);
    if IsKeeper(v, day, n - 1) then earlier + [n - 1] else earlier
  }

  /** The rows left after merging and deleting the redundant ones. */
  ghost function Kept(v: seq<Punch>, day: LocalDay): seq<Punch> {
    var kept := KeptPositions(v, day, |v|);
    seq(|kept|, k requires 0 <= k < |kept| && Positions(kept, |v|) => MergedPunch(v, day, kept[k]))
  }

  ghost predicate OnePerDay(v: seq<Punch>, day: LocalDay) {
    forall i, j :: 0 <= i < |v| && 0 <= j < |v| && SameGroup(v, day, i, j) ==> i == j
  }

  lemma KeptAt(v: seq<Punch>, day: LocalDay, k: nat)
    requires k < |Kept(v, day)|
    ensures |KeptPositions(v, day, |v|)| == |Kept(v, day)|
    ensures var i := KeptPositions(v, day, |v|)[k];
      && i < |v| && IsKeeper(v, day, i) && Kept(v, day)[k] == MergedPunch(v, day, i)
      && KeyOf(Kept(v, day)[k], day) == KeyOf(v[i], day)
  {
  }

  /** A row is given up only for a kept one of the same person and local day that clocked in no later. */
  lemma GivenUpForAnEarlierRow(v: seq<Punch>, day: LocalDay, i: nat)
    requires i < |v| && !IsKeeper(v, day, i)
    ensures exists k :: 0 <= k < |v| && k != i && IsKeeper(v, day, k)
              && v[k].employeeId == v[i].employeeId && day(v[k].clockIn) == day(v[i].clockIn)
              && v[k].clockIn <= v[i].clockIn
  {
    OneKeeperPerGroup(v, day, i);
    var k :| 0 <= k < |v| && SameGroup(v, day, i, k) && IsKeeper(v, day, k);
    assert ComesBefore(v, k, i);
  }

  /** So a person's only row of a local day is kept, and kept as it is. */
  lemma OnlyRowIsKept(v: seq<Punch>, day: LocalDay, i: nat)
    requires i < |v|
    requires forall j ::
      0 <= j < |v| && v[j].employeeId == v[i].employeeId && day(v[j].clockIn) == day(v[i].clockIn) ==> j == i
    ensures IsKeeper(v, day, i) && Merged(v, day)[i] == v[i]
  {
    var members := Members(v, day, KeyOf(v[i], day), |v|);
    MembersAre(v, day, KeyOf(v[i], day), |v|);
    var k :| 0 <= k < |members| && members[k] == i;
    forall l | 0 <= l < |members|
      ensures members[l] == i && l == k
    {
      assert members[l] in members;
      assert v[members[l]].employeeId == v[i].employeeId && day(v[members[l]].clockIn) == day(v[i].clockIn);
    }
    assert members[0] == i && members[|members| - 1] == i;
    assert members == [i];
    assert LatestOut(v, [i]) == Later(LatestOut(v, [i][..0]), v[i].clockOut);
  }

  /** What is left has at most one row per person and local day, */
  lemma KeptHasOnePerDay(v: seq<Punch>, day: LocalDay)
    ensures OnePerDay(Kept(v, day), day)
    ensures var left := Kept(v, day);
      forall k, l :: 0 <= k < l < |left| ==>
        left[k].employeeId != left[l].employeeId || day(left[k].clockIn) != day(left[l].clockIn)
  {
    hide IsKeeper, Kept;
    var left := Kept(v, day);
    forall k, l | 0 <= k < |left| && 0 <= l < |left| && SameGroup(left, day, k, l)
      ensures k == l
    {
      KeptAt(v, day, k);
      KeptAt(v, day, l);
      var kept := KeptPositions(v, day, |v|);
      KeeperIsUnique(v, day, kept[k], kept[l]);
    }
    forall k, l | 0 <= k < l < |left|
      ensures left[k].employeeId != left[l].employeeId || day(left[k].clockIn) != day(left[l].clockIn)
    {
      assert !SameGroup(left, day, k, l);
    }
  }

  /** and one for every person and day that had any, clocked in no later than any of them. */
  lemma KeptCoversEveryDay(v: seq<Punch>, day: LocalDay, i: nat)
    requires i < |v|
    ensures exists k :: 0 <= k < |Kept(v, day)|
              && Kept(v, day)[k].employeeId == v[i].employeeId
              && day(Kept(v, day)[k].clockIn) == day(v[i].clockIn)
              && Kept(v, day)[k].clockIn <= v[i].clockIn
  {
    var kept := KeptPositions(v, day, |v|);
    OneKeeperPerGroup(v, day, i);
    var m :| 0 <= m < |v| && SameGroup(v, day, i, m) && IsKeeper(v, day, m);
    assert m != i ==> ComesBefore(v, m, i);
    var k :| 0 <= k < |kept| && kept[k] == m;
    KeptAt(v, day, k);
    assert Kept(v, day)[k].clockIn == v[m].clockIn && Kept(v, day)[k].employeeId == v[m].employeeId;
  }

  /** With one session per person and day, merging sets nothing aside and changes nothing. */
  lemma NothingToMerge(v: seq<Punch>, day: LocalDay)
    requires OnePerDay(v, day)
    ensures forall i :: 0 <= i < |v| ==> IsKeeper(v, day, i)
    ensures Merged(v, day) == v
  {
    forall i | 0 <= i < |v|
      ensures IsKeeper(v, day, i) && Merged(v, day)[i] == v[i]
    {
      OnlyMember(v, day, i, |v|);
      assert LatestOut(v, [i]) == Later(LatestOut(v, [i][..0]), v[i].clockOut);
    }
  }

  lemma {:induction false} OnlyMember(v: seq<Punch>, day: LocalDay, i: nat, n: nat)
    requires OnePerDay(v, day) && i < |v| && n <= |v|
    ensures Members(v, day, KeyOf(v[i], day), n) == if i < n then [i] else []
  {
    if n > 0 {
      OnlyMember(v, day, i, n - 1);
      assert SameGroup(v, day, i, n - 1) ==> i == n - 1;
    }
  }

  /** A second merge over what the first one left removes nothing and changes nothing. */
  lemma SecondMergeRemovesNothing(v: seq<Punch>, day: LocalDay)
    ensures forall k :: 0 <= k < |Kept(v, day)| ==> IsKeeper(Kept(v, day), day, k)
    ensures Merged(Kept(v, day), day) == Kept(v, day) == Kept(Kept(v, day), day)
  {
    var left := Kept(v, day);
    KeptHasOnePerDay(v, day);
    NothingToMerge(left, day);
    AllKept(left, day, |left|);
  }

  lemma {:induction false} AllKept(v: seq<Punch>, day: LocalDay, n: nat)
    requires n <= |v| && forall i :: 0 <= i < |v| ==> IsKeeper(v, day, i)
    ensures KeptPositions(v, day, n) == seq(n, i => i)
  {
    hide IsKeeper;
    if n > 0 {
      AllKept(v, day, n - 1);
      assert seq(n, i => i) == seq(n - 1, i => i) + [n - 1];
    } else {
      assert KeptPositions(v, day, n) == seq(n, i => i);
    }
  }

  // --- Swapping and moving ---------------------------------------------------------------------------

  predicate OwnedBy(v: seq<Punch>, a: EmployeeId, b: EmployeeId) {
    forall i :: 0 <= i < |v| ==> v[i].employeeId == a || v[i].employeeId == b
  }

  /** Who owns each row afterwards; its times and its mark stay. */
  lemma OnlyOwnersChange(v: seq<Punch>, a: EmployeeId, b: EmployeeId, i: nat)
    requires i < |v|
    ensures |Swapped(v, a, b)| == |Moved(v, a, b)| == |v|
    ensures Swapped(v, a, b)[i]
      == Punch(if v[i].employeeId == a then b else a, v[i].clockIn, v[i].clockOut, v[i].clockOutSource)
    ensures Moved(v, a, b)[i]
      == Punch(if v[i].employeeId == a then b else v[i].employeeId, v[i].clockIn, v[i].clockOut, v[i].clockOutSource)
  {
  }

  /** Swapping twice restores the rows exactly when all of them belong to the pair. */
  lemma SwapIsSelfInverseIff(v: seq<Punch>, a: EmployeeId, b: EmployeeId)
    ensures Swapped(Swapped(v, a, b), a, b) == v <==> OwnedBy(v, a, b)
  {
  }

  /** If each of the two had one session a day, swapping and merging finds no duplicate, and swapping
      again restores the original rows. */
  lemma SwapAndMergeIsUndoneBySwap(v: seq<Punch>, a: EmployeeId, b: EmployeeId, day: LocalDay)
    requires OwnedBy(v, a, b) && OnePerDay(v, day)
    ensures var swapped := Swapped(v, a, b);
      && OnePerDay(swapped, day) && Merged(swapped, day) == swapped && Kept(swapped, day) == swapped
      && Swapped(Kept(swapped, day), a, b) == v
  {
    var swapped := Swapped(v, a, b);
    forall i, j | 0 <= i < |v| && 0 <= j < |v| && SameGroup(swapped, day, i, j)
      ensures i == j
    {
      assert SameGroup(v, day, i, j);
    }
    NothingToMerge(swapped, day);
    AllKept(swapped, day, |swapped|);
    assert Kept(swapped, day) == swapped;
    SwapIsSelfInverseIff(v, a, b);
  }

  /** Swap and merge, done twice, gives back exactly the rows of people who had one session a day. */
  lemma SwapAndMergeIsSelfInverseIff(v: seq<Punch>, a: EmployeeId, b: EmployeeId, day: LocalDay)
    requires OwnedBy(v, a, b)
    ensures Kept(Swapped(Kept(Swapped(v, a, b), day), a, b), day) == v <==> OnePerDay(v, day)
  {
    KeptHasOnePerDay(Swapped(Kept(Swapped(v, a, b), day), a, b), day);
    if OnePerDay(v, day) {
      SwapAndMergeIsUndoneBySwap(v, a, b, day);
      NothingToMerge(v, day);
      AllKept(v, day, |v|);
      assert Kept(v, day) == v;
    }
  }

  predicate SameDay(v: seq<Punch>, day: LocalDay, i: nat, j: nat)
    requires i < |v| && j < |v|
  {
    day(v[i].clockIn) == day(v[j].clockIn)
  }

  /** The row spans the sessions of `v` on one day: from the earliest clock-in to the latest clock-out that any
      of them has, each taken from one of them. */
  ghost predicate SpansDay(p: Punch, v: seq<Punch>, day: LocalDay, i: nat)
    requires i < |v|
  {
    && (forall j :: 0 <= j < |v| && SameDay(v, day, i, j) ==>
          && p.clockIn <= v[j].clockIn
          && (v[j].clockOut.Some? ==> p.clockOut.Some? && v[j].clockOut.value <= p.clockOut.value))
    && (exists j :: 0 <= j < |v| && SameDay(v, day, i, j) && v[j].clockIn == p.clockIn)
    && (p.clockOut.Some? ==> exists j :: 0 <= j < |v| && SameDay(v, day, i, j) && v[j].clockOut == p.clockOut)
  }

  /** After a one-way move and a merge the first person holds nothing, and the second holds one row for
      each day either of them had one, spanning what both had that day. */
  lemma MoveAndMergeGathersBoth(v: seq<Punch>, a: EmployeeId, b: EmployeeId, day: LocalDay, i: nat)
    requires OwnedBy(v, a, b) && a != b && i < |v|
    ensures var left := Kept(Moved(v, a, b), day);
      && (forall k :: 0 <= k < |left| ==> left[k].employeeId == b)
      && OnePerDay(left, day)
      && exists k :: 0 <= k < |left| && SpansDay(left[k], v, day, i)
  {
    hide IsKeeper, GroupOut, Members;
    KeptHasOnePerDay(Moved(v, a, b), day);
    var moved := Moved(v, a, b);
    var kept, left := KeptPositions(moved, day, |moved|), Kept(moved, day);
    forall k | 0 <= k < |left|
      ensures left[k].employeeId == b
    {
      assert kept[k] in kept;
    }
    OneKeeperPerGroup(moved, day, i);
    var m :| 0 <= m < |moved| && SameGroup(moved, day, i, m) && IsKeeper(moved, day, m);
    var k :| 0 <= k < |kept| && kept[k] == m;
    assert left[k] == Merged(moved, day)[m];
    SpansMovedDay(v, a, b, day, i, m);
  }

  lemma SpansMovedDay(v: seq<Punch>, a: EmployeeId, b: EmployeeId, day: LocalDay, i: nat, m: nat)
    requires OwnedBy(v, a, b) && i < |v| && m < |v|
    requires SameGroup(Moved(v, a, b), day, i, m) && IsKeeper(Moved(v, a, b), day, m)
    ensures SpansDay(Merged(Moved(v, a, b), day)[m], v, day, i)
  {
    hide IsKeeper, MergedPunch;
    var moved := Moved(v, a, b);
    var p := Merged(moved, day)[m];
    forall j | 0 <= j < |v| && SameDay(v, day, i, j)
      ensures p.clockIn <= v[j].clockIn
      ensures v[j].clockOut.Some? ==> p.clockOut.Some? && v[j].clockOut.value <= p.clockOut.value
    {
      assert SameGroup(moved, day, m, j);
      KeeperSpansGroup(moved, day, m, j);
    }
    KeeperSpansGroup(moved, day, m, m);
    assert SameDay(v, day, i, m);
    if p.clockOut.Some? {
      var j :| 0 <= j < |moved| && SameGroup(moved, day, m, j) && moved[j].clockOut == p.clockOut;
      assert SameDay(v, day, i, j) && v[j].clockOut == p.clockOut;
    }
  }

  /** The script's run on the rows it loaded: give them their new owners, then collapse the duplicates. */
  method Reattribute(rows: seq<WorkSession>, a: EmployeeId, b: EmployeeId, oneWay: bool, day: LocalDay)
    returns (redundant: seq<WorkSession>)
    requires Distinct(rows)
    modifies rows
    ensures var owned := if oneWay then Moved(old(Values(rows)), a, b) else Swapped(old(Values(rows)), a, b);
      && Values(rows) == Merged(owned, day) && ListedInOrder(rows, owned, day, redundant)
      && forall i :: 0 <= i < |rows| ==> (rows[i] in redundant <==> !IsKeeper(owned, day, i))
    ensures Distinct(redundant) && forall r :: r in redundant ==> r in rows
  {
    if oneWay {
      MoveOwners(rows, a, b);
    } else {
      SwapOwners(rows, a, b);
    }
    redundant := MergeSameDay(rows, day);
  }
}
