/** The mirror of one person's records from Circle: afterwards the stored rows are exactly the given entries. */
module CircleMirror {

  /** Absent stands for SQL NULL, which a missing key reads as. */
  datatype Value = Absent | Text(text: string) | Number(number: real) | Date(ordinal: int)

  type EmployeeId = int
  type CircleId = string
  type RowKey = (EmployeeId, CircleId)
  type Values = map<string, Value>

  function Lookup(values: Values, field: string): Value {
    if field in values then values[field] else Absent
  }

  /** The mirrored part of a record: each mirrored field, and nothing else. */
  function Project(values: Values, fields: seq<string>): Values {
    map field | field in fields :: Lookup(values, field)
  }

  function ProjectAll(entries: map<CircleId, Values>, fields: seq<string>): map<CircleId, Values> {
    map id | id in entries :: Project(entries[id], fields)
  }

  class CircleRow {
    const employeeId: EmployeeId
    const circleId: CircleId
    var values: Values

    constructor (employeeId: EmployeeId, circleId: CircleId)
      ensures this.employeeId == employeeId && this.circleId == circleId && values == map[]
    {
      this.employeeId, this.circleId, this.values := employeeId, circleId, map[];
    }
  }

  /** Sets the fields that differ, and says whether there were any. */
  method SetFields(row: CircleRow, values: Values, fields: seq<string>) returns (changed: bool)
    modifies row
    ensures Project(row.values, fields) == Project(values, fields)
    ensures changed <==> old(Project(row.values, fields)) != Project(values, fields)
    ensures forall field :: field !in fields ==> Lookup(row.values, field) == Lookup(old(row.values), field)
  {
    changed := false;
    for n := 0 to |fields|
      invariant forall field :: field in fields[..n] ==> Lookup(row.values, field) == Lookup(values, field)
      invariant forall field :: field !in fields[..n] ==> Lookup(row.values, field) == Lookup(old(row.values), field)
      invariant changed <==>
        exists field :: field in fields[..n] && Lookup(old(row.values), field) != Lookup(values, field)
    {
      var key := fields[n];
      assert fields[..n + 1] == fields[..n] + [key];
      if Lookup(row.values, key) != Lookup(values, key) {
        row.values := row.values[key := Lookup(values, key)];
        changed := true;
      }
    }
    assert fields[..|fields|] == fields;
    ProjectionsDiffer(old(row.values), values, fields);
  }

  lemma ProjectionsDiffer(a: Values, b: Values, fields: seq<string>)
    ensures Project(a, fields) != Project(b, fields) <==>
      exists field :: field in fields && Lookup(a, field) != Lookup(b, field)
  {
    if Project(a, fields) != Project(b, fields) {
      assert exists field :: field in fields && Project(a, fields)[field] != Project(b, fields)[field];
    }
    forall field | field in fields && Lookup(a, field) != Lookup(b, field)
      ensures Project(a, fields) != Project(b, fields)
    {
      assert Project(a, fields)[field] != Project(b, fields)[field];
    }
  }

  // --- The table as a value -------------------------------------------------------------------------

  type Table = map<RowKey, Values>

  function IdsOf(keys: set<RowKey>, employeeId: EmployeeId): (ids: set<CircleId>)
    ensures forall id :: id in ids <==> (employeeId, id) in keys
  {
    var ids := set key | key in keys && key.0 == employeeId :: key.1;
    assert forall id :: (employeeId, id) in keys ==> (employeeId, id).1 in ids;
    ids
  }

  /** A person's rows, projected to the mirrored fields. */
  function Mirror(table: Table, employeeId: EmployeeId, fields: seq<string>): map<CircleId, Values> {
    map id | id in IdsOf(table.Keys, employeeId) :: Project(table[(employeeId, id)], fields)
  }

  /** Everyone else's rows, whole. */
  function Others(table: Table, employeeId: EmployeeId): Table {
    map key | key in table && key.0 != employeeId :: table[key]
  }

  function Without(table: Table, employeeId: EmployeeId, gone: set<CircleId>): Table {
    map key | key in table && !(key.0 == employeeId && key.1 in gone) :: table[key]
  }

  lemma WithoutEffect(table: Table, employeeId: EmployeeId, gone: set<CircleId>, fields: seq<string>)
    ensures Mirror(Without(table, employeeId, gone), employeeId, fields) == Mirror(table, employeeId, fields) - gone
    ensures Others(Without(table, employeeId, gone), employeeId) == Others(table, employeeId)
  {
  }

  lemma UpdateEffect(table: Table, employeeId: EmployeeId, id: CircleId, values: Values, fields: seq<string>)
    ensures var updated := table[(employeeId, id) := values];
      && Mirror(updated, employeeId, fields) == Mirror(table, employeeId, fields)[id := Project(values, fields)]
      && Others(updated, employeeId) == Others(table, employeeId)
  {
  }

  /** What an equal mirror means, field by field: a row for every entry and no other, holding each mirrored field
      the entry gives, and nothing in those it does not. */
  lemma MirrorIff(table: Table, employeeId: EmployeeId, entries: map<CircleId, Values>, fields: seq<string>)
    ensures Mirror(table, employeeId, fields) == ProjectAll(entries, fields) <==>
      && (forall id :: (employeeId, id) in table <==> id in entries)
      && forall id, field :: id in entries && field in fields ==>
           var (stored, given) := (table[(employeeId, id)], entries[id]);
           (if field in stored then stored[field] else Absent) == (if field in given then given[field] else Absent)
  {
    var mirror, wanted := Mirror(table, employeeId, fields), ProjectAll(entries, fields);
    if mirror == wanted {
      forall id
        ensures (employeeId, id) in table <==> id in entries
      {
        assert id in mirror <==> id in wanted;
      }
      forall id, field | id in entries && field in fields
        ensures Lookup(table[(employeeId, id)], field) == Lookup(entries[id], field)
      {
        assert mirror[id] == wanted[id];
        assert mirror[id][field] == wanted[id][field];
      }
    } else if forall id :: (employeeId, id) in table <==> id in entries {
      assert mirror.Keys == wanted.Keys;
      var id :| id in mirror && mirror[id] != wanted[id];
      ProjectionsDiffer(table[(employeeId, id)], entries[id], fields);
    }
  }

  // --- The repository -------------------------------------------------------------------------------

  class CircleRecordRepository {
    /** The table, by the columns of its unique constraint. */
    var rows: map<RowKey, CircleRow>

    constructor ()
      ensures Valid() && Contents() == map[]
    {
      rows := map[];
    }

    ghost predicate Valid()
      reads this, rows.Values
    {
      forall key :: key in rows ==> rows[key].employeeId == key.0 && rows[key].circleId == key.1
    }

    ghost function Contents(): Table
      reads this, rows.Values
    {
      map key | key in rows :: rows[key].values
    }

    method DeleteGone(employeeId: EmployeeId, gone: set<CircleId>)
      requires Valid()
      modifies this
      ensures Valid() && rows.Values <= old(rows.Values)
      ensures Contents() == Without(old(Contents()), employeeId, gone)
    {
      rows := map key | key in rows && !(key.0 == employeeId && key.1 in gone) :: rows[key];
    }

    method AddMissing(employeeId: EmployeeId, id: CircleId) returns (added: bool)
      requires Valid()
      modifies this
      ensures Valid() && fresh(rows.Values - old(rows.Values))
      ensures added <==> (employeeId, id) !in old(rows)
      ensures if added then (employeeId, id) in rows && rows == old(rows)[(employeeId, id) := rows[(employeeId, id)]]
              else rows == old(rows)
      ensures Contents() == if added then old(Contents())[(employeeId, id) := map[]] else old(Contents())
    {
      var key := (employeeId, id);
      added := key !in rows;
      if added {
        var row := new CircleRow(employeeId, id);
        rows := rows[key := row];
      }
    }

    /** The row of one entry: added if missing, and given the entry's fields. */
    method MirrorEntry(employeeId: EmployeeId, id: CircleId, values: Values, fields: seq<string>)
      returns (changed: bool)
      requires Valid()
      modifies this, rows.Values
      ensures Valid() && fresh(rows.Values - old(rows.Values))
      ensures (employeeId, id) in rows
      ensures Contents() == old(Contents())[(employeeId, id) := rows[(employeeId, id)].values]
      ensures Project(rows[(employeeId, id)].values, fields) == Project(values, fields)
      ensures !changed <==>
        (employeeId, id) in old(rows) && old(Project(rows[(employeeId, id)].values, fields)) == Project(values, fields)
    {
      hide Project;
      var added := AddMissing(employeeId, id);
      var differed := UpdateRow(employeeId, id, values, fields);
      changed := added || differed;
    }

    method UpdateRow(employeeId: EmployeeId, id: CircleId, values: Values, fields: seq<string>) returns (changed: bool)
      requires Valid() && (employeeId, id) in rows
      modifies rows[(employeeId, id)]
      ensures Valid()
      ensures Contents() == old(Contents())[(employeeId, id) := rows[(employeeId, id)].values]
      ensures Project(rows[(employeeId, id)].values, fields) == Project(values, fields)
      ensures changed <==> old(Project(rows[(employeeId, id)].values, fields)) != Project(values, fields)
    {
      hide Project;
      var row := rows[(employeeId, id)];
      assert forall key :: key in rows && key != (employeeId, id) ==> rows[key] != row;
      changed := SetFields(row, values, fields);
    }

    /** Makes the person's rows exactly the entries, in the mirrored fields, and says whether that
        changed anything. Nobody else's row is touched. */
    method Replace(employeeId: EmployeeId, entries: map<CircleId, Values>, fields: seq<string>) returns (changed: bool)
      requires Valid()
      modifies this, rows.Values
      ensures Valid() && fresh(rows.Values - old(rows.Values))
      ensures Mirror(Contents(), employeeId, fields) == ProjectAll(entries, fields)
      ensures changed <==> old(Mirror(Contents(), employeeId, fields)) != ProjectAll(entries, fields)
      ensures Others(Contents(), employeeId) == old(Others(Contents(), employeeId))
    {
      hide Project, Mirror, Others, Without, PartlyMirrored, Differs, Valid;
      ghost var table := Contents();
      ghost var before, wanted := Mirror(table, employeeId, fields), ProjectAll(entries, fields);
      var gone := IdsOf(rows.Keys, employeeId) - entries.Keys;
      assert table.Keys == rows.Keys && wanted.Keys == entries.Keys;
      MirrorIds(table, employeeId, fields);
      assert gone == before.Keys - wanted.Keys;
      WithoutEffect(table, employeeId, gone, fields);
      PartlyMirroredAtStart(before, wanted);
      assert gone == {} ==> before - gone == before;
      changed := false;
      if gone != {} {
        DeleteGone(employeeId, gone);
        changed := true;
      }
      var todo := entries.Keys;
      assert entries.Keys - todo == {};
      while todo != {}
        invariant Valid() && todo <= entries.Keys && fresh(rows.Values - old(rows.Values))
        invariant Mirror(Contents(), employeeId, fields) == PartlyMirrored(before, wanted, todo)
        invariant changed <==> Differs(before, wanted, entries.Keys - todo)
        invariant Others(Contents(), employeeId) == Others(table, employeeId)
      {
        var id :| id in todo;
        var entryChanged := ReplaceOne(employeeId, id, entries[id], fields);
        PartlyMirroredStep(before, wanted, todo, id);
        changed := changed || entryChanged;
        todo := todo - {id};
      }
      assert entries.Keys - todo == wanted.Keys;
      MirroredWhenNothingLeft(before, wanted);
    }

    /** MirrorEntry in terms of the person's mirror. */
    method ReplaceOne(employeeId: EmployeeId, id: CircleId, values: Values, fields: seq<string>) returns (changed: bool)
      requires Valid()
      modifies this, rows.Values
      ensures Valid() && fresh(rows.Values - old(rows.Values))
      ensures var before := old(Mirror(Contents(), employeeId, fields));
        && Mirror(Contents(), employeeId, fields) == before[id := Project(values, fields)]
        && (changed <==> !(id in before && before[id] == Project(values, fields)))
      ensures Others(Contents(), employeeId) == old(Others(Contents(), employeeId))
    {
      ghost var table := Contents();
      MirrorIds(table, employeeId, fields);
      changed := MirrorEntry(employeeId, id, values, fields);
      UpdateEffect(table, employeeId, id, rows[(employeeId, id)].values, fields);
    }

    /** Repeating a replacement at once reports that nothing changed. */
    method ReplaceAgain(employeeId: EmployeeId, entries: map<CircleId, Values>, fields: seq<string>)
      returns (first: bool, second: bool)
      requires Valid()
      modifies this, rows.Values
      ensures first <==> old(Mirror(Contents(), employeeId, fields)) != Mirror(Contents(), employeeId, fields)
      ensures !second && Mirror(Contents(), employeeId, fields) == ProjectAll(entries, fields)
    {
      first := Replace(employeeId, entries, fields);
      second := Replace(employeeId, entries, fields);
    }
  }

  lemma MirrorIds(table: Table, employeeId: EmployeeId, fields: seq<string>)
    ensures Mirror(table, employeeId, fields).Keys == IdsOf(table.Keys, employeeId)
  {
  }

  /** What the mirror holds part-way: the listed ids only, those still to do as they were. */
  ghost function PartlyMirrored(before: map<CircleId, Values>, wanted: map<CircleId, Values>,
      todo: set<CircleId>): map<CircleId, Values> {
    map id | id in wanted.Keys && (id in before || id !in todo) :: if id in todo then before[id] else wanted[id]
  }

  /** An id has to go, or one of the entries done so far was missing or different. */
  ghost predicate Differs(before: map<CircleId, Values>, wanted: map<CircleId, Values>, done: set<CircleId>)
    requires done <= wanted.Keys
  {
    !(before.Keys <= wanted.Keys) || exists id :: id in done && (id !in before || before[id] != wanted[id])
  }

  lemma PartlyMirroredAtStart(before: map<CircleId, Values>, wanted: map<CircleId, Values>)
    ensures before - (before.Keys - wanted.Keys) == PartlyMirrored(before, wanted, wanted.Keys)
    ensures Differs(before, wanted, {}) <==> before.Keys - wanted.Keys != {}
  {
    if !(before.Keys <= wanted.Keys) {
      var id :| id in before.Keys && id !in wanted.Keys;
      assert id in before.Keys - wanted.Keys;
    }
  }

  lemma PartlyMirroredStep(before: map<CircleId, Values>, wanted: map<CircleId, Values>, todo: set<CircleId>,
      id: CircleId)
    requires id in todo && todo <= wanted.Keys
    ensures var partly := PartlyMirrored(before, wanted, todo);
      && PartlyMirrored(before, wanted, todo - {id}) == partly[id := wanted[id]]
      && (id in partly <==> id in before) && (id in before ==> partly[id] == before[id])
    ensures Differs(before, wanted, wanted.Keys - (todo - {id})) <==>
      Differs(before, wanted, wanted.Keys - todo) || !(id in before && before[id] == wanted[id])
  {
  }

  lemma MirroredWhenNothingLeft(before: map<CircleId, Values>, wanted: map<CircleId, Values>)
    ensures PartlyMirrored(before, wanted, {}) == wanted
    ensures Differs(before, wanted, wanted.Keys) <==> before != wanted
  {
  }
}
