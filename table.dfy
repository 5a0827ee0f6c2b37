/** models/table.go: a table with a fixed number of seats. */
module TableModel {
  import opened Common

  /** `id` is generated by the store on insert (0 before that). The
      reservations and guests a table owns are kept in their own tracks. */
  datatype Table = Table(id: int, capacity: int)

  /** A table is valid exactly when it has at least one seat. */
  function Validate(t: Table): (o: Outcome)
    ensures o.Pass? <==> t.capacity >= 1
    ensures o.Fail? ==> o.error == Invalid(CapacityNotPositive(t.capacity))
  {
    if t.capacity <= 0 then Fail(Invalid(CapacityNotPositive(t.capacity))) else Pass
  }

  /** The store's hook before inserting a table: it only re-runs `Validate`. */
  function BeforeCreate(t: Table): (o: Outcome)
    ensures o.Fail? <==> Validate(t).Fail?
    ensures o.Fail? ==> o.error == Validate(t).error
  {
    match Validate(t)
    case Fail(e) => Fail(e)
    case Pass => Pass
  }

  /** Loading a table by primary key: the first table with that id, or
      `None` when no table has it. */
  function FindTable(tables: seq<Table>, id: int): (r: Option<Table>)
    ensures r.Some? ==> r.value in tables && r.value.id == id
    ensures r.None? <==> forall t | t in tables :: t.id != id
  {
    if tables == [] then None
    else if tables[0].id == id then Some(tables[0])
    else FindTable(tables[1..], id)
  }

  /** Tables whose ids are 1, 2, 3, ... in insertion order, which is how
      the store's auto-increment key numbers them. */
  predicate NumberedInOrder(tables: seq<Table>) {
    forall i | 0 <= i < |tables| :: tables[i].id == i + 1
  }

  /** In a numbered sequence a lookup finds the table at position id - 1
      and fails exactly for ids outside 1 .. |tables|. */
  lemma FindNumbered(tables: seq<Table>, id: int)
    requires NumberedInOrder(tables)
    ensures FindTable(tables, id) == if 1 <= id <= |tables| then Some(tables[id - 1]) else None
  {
    var r := FindTable(tables, id);
    if 1 <= id <= |tables| {
      assert tables[id - 1].id == id;
      assert r.Some?;
      var k :| 0 <= k < |tables| && tables[k] == r.value;
      assert k == id - 1;
    }
  }

  /** The table test cases: capacity 4 is accepted, 0 and -1 are not. */
  lemma TableScenarios()
    ensures Validate(Table(0, 4)) == Pass
    ensures Validate(Table(0, 0)) == Fail(Invalid(CapacityNotPositive(0)))
    ensures Validate(Table(0, -1)) == Fail(Invalid(CapacityNotPositive(-1)))
  {
  }
}
