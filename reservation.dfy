/** models/reservation.go: an entry of the guest list, which books seats
    at a table ahead of the event. */
module ReservationModel {
  import opened Common
  import TableModel

  /** `name` is the primary key of the guest list. */
  datatype Reservation = Reservation(name: Name, accompanyingGuests: int, tableId: int)

  /** `Guests()`: the named person plus the people accompanying them, so
      the party holds someone exactly when the count is not negative. */
  function Guests(r: Reservation): (n: int)
    ensures n >= 1 <==> r.accompanyingGuests >= 0
  {
    1 + r.accompanyingGuests
  }

  /** A reservation is valid exactly when its name has at least six bytes.
      The accompanying count is not checked (see the open issue in the
      README): a negative count is accepted. */
  function Validate(r: Reservation): (o: Outcome)
    ensures o.Pass? <==> |r.name| >= MinNameLength
    ensures o.Fail? ==> o.error == Invalid(NameTooShort(|r.name|))
  {
    if |r.name| < MinNameLength then Fail(Invalid(NameTooShort(|r.name|))) else Pass
  }

  /** The reservations of the table with key `id`, in store order: what
      loading the table's `Reservations` association yields. */
  function OnTable(rs: seq<Reservation>, id: int): (sel: seq<Reservation>)
    ensures |sel| <= |rs|
    ensures forall r | r in sel :: r in rs && r.tableId == id
    ensures forall r | r in rs && r.tableId == id :: r in sel
  {
    if rs == [] then []
    else
      var init, last := rs[..|rs| - 1], rs[|rs| - 1];
      assert rs == init + [last];
      if last.tableId == id then OnTable(init, id) + [last] else OnTable(init, id)
  }

  /** The seats a sequence of reservations books: the sum of their
      `Guests()`, 0 for no reservations. */
  function Occupancy(rs: seq<Reservation>): (sum: int)
  {
    if rs == [] then 0 else Occupancy(rs[..|rs| - 1]) + Guests(rs[|rs| - 1])
  }

  /** True when some reservation already has this name. */
  predicate NameTaken(rs: seq<Reservation>, name: Name) {
    exists r | r in rs :: r.name == name
  }

  /** No two reservations share a name, as the primary key demands. */
  predicate UniqueNames(rs: seq<Reservation>) {
    forall i, j | 0 <= i < j < |rs| :: rs[i].name != rs[j].name
  }

  /** What `BeforeCreate` decides for a candidate `r`, given the tables and
      reservations in the store: validation first, then the table lookup,
      then the capacity comparison over the table's existing reservations. */
  function Admit(r: Reservation, tables: seq<TableModel.Table>, rs: seq<Reservation>): (o: Outcome)
    ensures o.Pass? ==> Validate(r).Pass? && TableModel.FindTable(tables, r.tableId).Some?
    ensures o.Fail? ==> o.error.Invalid? || o.error == TableNotFound || o.error.CapacityExceeded?
  {
    match Validate(r)
    case Fail(e) => Fail(e)
    case Pass =>
      match TableModel.FindTable(tables, r.tableId)
      case None => Fail(TableNotFound)
      case Some(t) => CapacityCheck(Occupancy(OnTable(rs, t.id)), Guests(r), t.capacity)
  }

  /** The hook the store runs before inserting a reservation: it loads the
      table and its reservations and adds up their party sizes in a loop. */
  method BeforeCreate(r: Reservation, tables: seq<TableModel.Table>, rs: seq<Reservation>)
    returns (o: Outcome)
    ensures o == Admit(r, tables, rs)
  {
    o := Validate(r);
    if o.Fail? {
      return;
    }
    var found := TableModel.FindTable(tables, r.tableId);
    if found.None? {
      return Fail(TableNotFound);
    }
    var table := found.value;
    var reservations := OnTable(rs, table.id);
    var sum := 0;
    for i := 0 to |reservations|
      invariant sum == Occupancy(reservations[..i])
    {
      assert reservations[..i + 1][..i] == reservations[..i];
      sum := sum + Guests(reservations[i]);
    }
    assert reservations[..|reservations|] == reservations;
    if sum + Guests(r) > table.capacity {
      return Fail(CapacityExceeded(sum + Guests(r) - table.capacity));
    }
    return Pass;
  }

  /** Adding a reservation adds it to its own table's list and to no other. */
  lemma OnTableAppend(rs: seq<Reservation>, r: Reservation, id: int)
    ensures OnTable(rs + [r], id) == if r.tableId == id then OnTable(rs, id) + [r] else OnTable(rs, id)
  {
    assert (rs + [r])[..|rs|] == rs;
  }

  /** The table's list holds each of its reservations as often as the
      store does, and nothing else, so its sum counts every booking once. */
  lemma {:induction false} OnTableCounts(rs: seq<Reservation>, id: int)
    ensures forall r :: multiset(OnTable(rs, id))[r] == if r.tableId == id then multiset(rs)[r] else 0
  {
    if rs != [] {
      var init, last := rs[..|rs| - 1], rs[|rs| - 1];
      assert rs == init + [last];
      OnTableCounts(init, id);
      OnTableAppend(init, last, id);
    }
  }

  /** One more reservation adds exactly its party to the sum. */
  lemma OccupancyAppend(rs: seq<Reservation>, r: Reservation)
    ensures Occupancy(rs + [r]) == Occupancy(rs) + Guests(r)
  {
    assert (rs + [r])[..|rs|] == rs;
  }

  /** A table with no reservation for it books no seats. */
  lemma OnTableNone(rs: seq<Reservation>, id: int)
    requires forall r | r in rs :: r.tableId != id
    ensures OnTable(rs, id) == [] && Occupancy(OnTable(rs, id)) == 0
  {
  }

  /** A failed validation is reported before any table is consulted, and
      it is the failure the hook returns. */
  lemma AdmitValidatesFirst(r: Reservation, tables: seq<TableModel.Table>, rs: seq<Reservation>)
    requires |r.name| < MinNameLength
    ensures Admit(r, tables, rs) == Fail(Invalid(NameTooShort(|r.name|)))
  {
  }

  /** The hook accepts exactly the valid reservations for an existing table
      whose party fits in the seats its reservations leave free; it reports
      capacity exceeded exactly when the party does not fit, and the amount
      reported is the overflow. */
  lemma AdmitDecision(r: Reservation, tables: seq<TableModel.Table>, rs: seq<Reservation>)
    ensures var found := TableModel.FindTable(tables, r.tableId);
      var sum := Occupancy(OnTable(rs, r.tableId));
      && (Admit(r, tables, rs).Pass? <==>
            |r.name| >= MinNameLength && found.Some? && sum + Guests(r) <= found.value.capacity)
      && (Admit(r, tables, rs) == Fail(TableNotFound) <==> |r.name| >= MinNameLength && found.None?)
      && ((Admit(r, tables, rs).Fail? && Admit(r, tables, rs).error.CapacityExceeded?) <==>
            |r.name| >= MinNameLength && found.Some? && sum + Guests(r) > found.value.capacity)
      && ((Admit(r, tables, rs).Fail? && Admit(r, tables, rs).error.CapacityExceeded?) ==>
            Admit(r, tables, rs).error.excess == sum + Guests(r) - found.value.capacity)
  {
  }

  /** After an accepted reservation is added, its table is still within
      capacity on the reservation track. */
  lemma AdmitKeepsCapacity(r: Reservation, tables: seq<TableModel.Table>, rs: seq<Reservation>)
    requires Admit(r, tables, rs).Pass?
    ensures TableModel.FindTable(tables, r.tableId).Some?
    ensures Occupancy(OnTable(rs + [r], r.tableId)) <= TableModel.FindTable(tables, r.tableId).value.capacity
  {
    OnTableAppend(rs, r, r.tableId);
  }

  /** A new name keeps the guest list free of duplicates. */
  lemma AppendKeepsUnique(rs: seq<Reservation>, r: Reservation)
    requires UniqueNames(rs) && !NameTaken(rs, r.name)
    ensures UniqueNames(rs + [r])
  {
    forall i, j | 0 <= i < j < |rs + [r]| ensures (rs + [r])[i].name != (rs + [r])[j].name {
      if j == |rs| {
        assert rs[i] in rs;
      }
    }
  }

  /** The reservation test cases, replayed against the hook. */
  lemma ReservationScenarios()
    // an empty capacity-6 table takes a party of 6: filling a table is allowed
    ensures Admit(Reservation(Ascii("username"), 5, 1), [TableModel.Table(1, 6)], []) == Pass
    // capacity 8 holding a party of 2 takes a party of 6
    ensures Admit(Reservation(Ascii("username"), 5, 1), [TableModel.Table(1, 8)],
                  [Reservation(Ascii("lastname"), 1, 1)]) == Pass
    // a four-byte name is rejected
    ensures Admit(Reservation(Ascii("user"), 5, 1), [TableModel.Table(1, 6)], []) ==
            Fail(Invalid(NameTooShort(4)))
    // capacity 4, empty: a party of 6 overflows by 2
    ensures Admit(Reservation(Ascii("username"), 5, 1), [TableModel.Table(1, 4)], []) ==
            Fail(CapacityExceeded(2))
    // capacity 8 holding a party of 3: a party of 6 overflows by 1
    ensures Admit(Reservation(Ascii("username"), 5, 1), [TableModel.Table(1, 8)],
                  [Reservation(Ascii("lastname"), 2, 1)]) == Fail(CapacityExceeded(1))
    // a full capacity-6 table refuses one more person, by 1
    ensures Admit(Reservation(Ascii("lastname2"), 0, 1), [TableModel.Table(1, 6)],
                  [Reservation(Ascii("username"), 5, 1)]) == Fail(CapacityExceeded(1))
  {
  }

  /** As written, a negative accompanying count passes validation and
      lowers the table's booked total, so parties of real people can book
      more seats than the table has: 6 + 4 people on a 6-seat table. The
      names are "aaaaaa", "bbbbbb" and "cccccc" as bytes. */
  lemma NegativeAccompanyingOverbooks()
    ensures var tables := [TableModel.Table(1, 6)];
      var a := Reservation([97, 97, 97, 97, 97, 97], 5, 1);
      var b := Reservation([98, 98, 98, 98, 98, 98], -5, 1);
      var c := Reservation([99, 99, 99, 99, 99, 99], 3, 1);
      && Validate(b) == Pass
      && Admit(a, tables, []) == Pass
      && Admit(b, tables, [a]) == Pass
      && Admit(c, tables, [a, b]) == Pass
      && Guests(a) + Guests(c) > tables[0].capacity
  {
    var t := TableModel.Table(1, 6);
    var a := Reservation([97, 97, 97, 97, 97, 97], 5, 1);
    var b := Reservation([98, 98, 98, 98, 98, 98], -5, 1);
    var c := Reservation([99, 99, 99, 99, 99, 99], 3, 1);
    OverbookingTotals(a, b, 1);
    AdmitAtOnlyTable(a, t, []);
    AdmitAtOnlyTable(b, t, [a]);
    AdmitAtOnlyTable(c, t, [a, b]);
  }

  /** The booked totals of the overbooking example: a party of 6 and then
      a record of -4 people leave 2 seats counted on the table. */
  lemma OverbookingTotals(a: Reservation, b: Reservation, id: int)
    requires a.tableId == id && b.tableId == id
    requires a.accompanyingGuests == 5 && b.accompanyingGuests == -5
    ensures OnTable([], id) == [] && Occupancy([]) == 0
    ensures OnTable([a], id) == [a] && Occupancy([a]) == 6
    ensures OnTable([a, b], id) == [a, b] && Occupancy([a, b]) == 2
  {
    OnTableAppend([], a, id);
    assert [] + [a] == [a];
    OccupancyAppend([], a);
    OnTableAppend([a], b, id);
    assert [a] + [b] == [a, b];
    OccupancyAppend([a], b);
  }

  /** With a single stored table, a valid reservation for it is decided by
      the capacity comparison alone. */
  lemma AdmitAtOnlyTable(r: Reservation, t: TableModel.Table, rs: seq<Reservation>)
    requires Validate(r).Pass? && r.tableId == t.id
    ensures Admit(r, [t], rs) == CapacityCheck(Occupancy(OnTable(rs, t.id)), Guests(r), t.capacity)
  {
  }

}
