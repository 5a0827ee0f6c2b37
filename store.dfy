/** The database the controllers write through, held in memory: the three
    collections, the `BeforeCreate` hooks the store runs before each insert,
    the primary-key check on names, and the auto-increment table key. */
module Store {
  import opened Common
  import TableModel
  import ReservationModel
  import GuestModel

  /** Tables are numbered 1, 2, 3, ... and each has at least one seat. */
  ghost predicate TablesConsistent(tables: seq<TableModel.Table>) {
    TableModel.NumberedInOrder(tables) && forall i | 0 <= i < |tables| :: tables[i].capacity >= 1
  }

  /** Every reservation passed validation and refers to an existing table,
      names are unique, and no table is booked beyond its capacity. */
  ghost predicate ReservationsConsistent(tables: seq<TableModel.Table>, rs: seq<ReservationModel.Reservation>) {
    && (forall r | r in rs :: ReservationModel.Validate(r).Pass? && 1 <= r.tableId <= |tables|)
    && ReservationModel.UniqueNames(rs)
    && (forall i | 0 <= i < |tables| ::
          ReservationModel.Occupancy(ReservationModel.OnTable(rs, tables[i].id)) <= tables[i].capacity)
  }

  /** Every guest passed validation and sits at an existing table, names are
      unique, and no table seats more guests than its capacity. */
  ghost predicate GuestsConsistent(tables: seq<TableModel.Table>, gs: seq<GuestModel.Guest>) {
    && (forall g | g in gs :: GuestModel.Validate(g).Pass? && 1 <= g.tableId <= |tables|)
    && GuestModel.UniqueNames(gs)
    && (forall i | 0 <= i < |tables| ::
          GuestModel.Occupancy(GuestModel.OnTable(gs, tables[i].id)) <= tables[i].capacity)
  }

  /** The ledger invariant. The two tracks are checked separately against
      the same capacities and never against each other. */
  ghost predicate Consistent(tables: seq<TableModel.Table>, rs: seq<ReservationModel.Reservation>,
                             gs: seq<GuestModel.Guest>) {
    TablesConsistent(tables) && ReservationsConsistent(tables, rs) && GuestsConsistent(tables, gs)
  }

  /** The result of `Create` on a model with a hook: the hook's error if it
      failed, else a primary-key conflict if the name is taken, else
      success. */
  function Commit(hook: Outcome, nameTaken: bool): (o: Outcome)
    ensures o.Pass? <==> hook.Pass? && !nameTaken
    ensures hook.Fail? ==> o == hook
    ensures hook.Pass? && nameTaken ==> o == Fail(Conflict)
  {
    if hook.Fail? then hook else if nameTaken then Fail(Conflict) else Pass
  }

  /** Appending an accepted reservation with a free name keeps the guest
      list consistent: the hook's check is exactly what the invariant needs. */
  lemma AdmittedReservationKeepsConsistent(tables: seq<TableModel.Table>, rs: seq<ReservationModel.Reservation>,
                                           r: ReservationModel.Reservation)
    requires TablesConsistent(tables) && ReservationsConsistent(tables, rs)
    requires ReservationModel.Admit(r, tables, rs).Pass? && !ReservationModel.NameTaken(rs, r.name)
    ensures ReservationsConsistent(tables, rs + [r])
  {
    ReservationModel.AdmitKeepsCapacity(r, tables, rs);
    TableModel.FindNumbered(tables, r.tableId);
    ReservationModel.AppendKeepsUnique(rs, r);
    forall i | 0 <= i < |tables|
      ensures ReservationModel.Occupancy(ReservationModel.OnTable(rs + [r], tables[i].id)) <= tables[i].capacity
    {
      ReservationModel.OnTableAppend(rs, r, tables[i].id);
    }
  }

  /** Appending an accepted guest with a free name keeps the guest track
      consistent. */
  lemma AdmittedGuestKeepsConsistent(tables: seq<TableModel.Table>, gs: seq<GuestModel.Guest>, g: GuestModel.Guest)
    requires TablesConsistent(tables) && GuestsConsistent(tables, gs)
    requires GuestModel.Admit(g, tables, gs).Pass? && !GuestModel.NameTaken(gs, g.name)
    ensures GuestsConsistent(tables, gs + [g])
  {
    GuestModel.AdmitKeepsCapacity(g, tables, gs);
    TableModel.FindNumbered(tables, g.tableId);
    GuestModel.AppendKeepsUnique(gs, g);
    forall i | 0 <= i < |tables|
      ensures GuestModel.Occupancy(GuestModel.OnTable(gs + [g], tables[i].id)) <= tables[i].capacity
    {
      GuestModel.OnTableAppend(gs, g, tables[i].id);
    }
  }

  class Ledger {
    var tables: seq<TableModel.Table>
    var reservations: seq<ReservationModel.Reservation>
    var guests: seq<GuestModel.Guest>

    ghost predicate Valid()
      reads this
    {
      Consistent(tables, reservations, guests)
    }

    /** An empty store. */
    constructor ()
      ensures Valid()
      ensures tables == [] && reservations == [] && guests == []
    {
      tables, reservations, guests := [], [], [];
    }

    /** Inserting a table: the hook, then the insert, which gives the
        table the next key. */
    method CreateTable(t: TableModel.Table) returns (res: Result<TableModel.Table>)
      requires Valid()
      modifies this
      ensures Valid()
      ensures reservations == old(reservations) && guests == old(guests)
      ensures res.Ok? <==> t.capacity >= 1
      ensures res.Err? ==> res.error == Invalid(CapacityNotPositive(t.capacity)) && tables == old(tables)
      ensures res.Ok? ==> res.value == TableModel.Table(|old(tables)| + 1, t.capacity)
      ensures res.Ok? ==> tables == old(tables) + [res.value]
    {
      var o := TableModel.BeforeCreate(t);
      if o.Fail? {
        return Err(o.error);
      }
      var created := TableModel.Table(|tables| + 1, t.capacity);
      ReservationModel.OnTableNone(reservations, created.id);
      GuestModel.OnTableNone(guests, created.id);
      tables := tables + [created];
      res := Ok(created);
    }

    /** Inserting a reservation: the hook, then the primary-key check, then
        the insert. Nothing is inserted on any failure. */
    method CreateReservation(r: ReservationModel.Reservation) returns (o: Outcome)
      requires Valid()
      modifies this
      ensures Valid()
      ensures tables == old(tables) && guests == old(guests)
      ensures o == Commit(ReservationModel.Admit(r, old(tables), old(reservations)),
                          ReservationModel.NameTaken(old(reservations), r.name))
      ensures o.Pass? ==> reservations == old(reservations) + [r]
      ensures o.Fail? ==> reservations == old(reservations)
    {
      o := ReservationModel.BeforeCreate(r, tables, reservations);
      if o.Fail? {
        return;
      }
      if ReservationModel.NameTaken(reservations, r.name) {
        return Fail(Conflict);
      }
      AdmittedReservationKeepsConsistent(tables, reservations, r);
      reservations := reservations + [r];
    }

    /** Inserting a guest: the hook, then the primary-key check, then the
        insert. Nothing is inserted on any failure. */
    method CreateGuest(g: GuestModel.Guest) returns (o: Outcome)
      requires Valid()
      modifies this
      ensures Valid()
      ensures tables == old(tables) && reservations == old(reservations)
      ensures o == Commit(GuestModel.Admit(g, old(tables), old(guests)),
                          GuestModel.NameTaken(old(guests), g.name))
      ensures o.Pass? ==> guests == old(guests) + [g]
      ensures o.Fail? ==> guests == old(guests)
    {
      o := GuestModel.BeforeCreate(g, tables, guests);
      if o.Fail? {
        return;
      }
      if GuestModel.NameTaken(guests, g.name) {
        return Fail(Conflict);
      }
      AdmittedGuestKeepsConsistent(tables, guests, g);
      guests := guests + [g];
    }

    /** Deleting every guest with this name. No capacity check is needed:
        deleting only frees seats. */
    method DeleteGuests(name: Name)
      requires Valid()
      modifies this
      ensures Valid()
      ensures tables == old(tables) && reservations == old(reservations)
      ensures guests == GuestModel.WithoutName(old(guests), name)
    {
      GuestModel.WithoutNameKeepsUnique(guests, name);
      forall i | 0 <= i < |tables|
        ensures GuestModel.Occupancy(GuestModel.OnTable(GuestModel.WithoutName(guests, name), tables[i].id))
                <= tables[i].capacity
      {
        GuestModel.RemovalFreesSeats(guests, name, tables[i].id);
      }
      guests := GuestModel.WithoutName(guests, name);
    }
  }
}
