/** A client of the controllers: what a caller can conclude from their
    contracts alone, on one seating scenario. */
module Scenarios {
  import opened Common
  import TableModel
  import ReservationModel
  import GuestModel
  import opened Store
  import TableController
  import ReservationController
  import GuestController

  /** An empty store refuses a table without seats, takes a table of six
      and a booking that fills it, and refuses one more person. */
  method BookTable() returns (db: Ledger, noSeats: Result<TableModel.Table>, oneMore: Result<Name>)
    ensures noSeats == Err(Invalid(CapacityNotPositive(0)))
    ensures oneMore == Err(CapacityExceeded(1))
    ensures fresh(db) && db.Valid()
    ensures db.tables == [TableModel.Table(1, 6)]
    ensures db.reservations == [ReservationModel.Reservation(Ascii("username"), 5, 1)]
    ensures db.guests == []
  {
    db := new Ledger();
    var tables := TableController.GetTables(db);
    assert tables == [];

    noSeats := TableController.CreateTable(db, TableController.CreateTableRequest(0));
    var t := TableController.CreateTable(db, TableController.CreateTableRequest(6));
    assert t == Ok(TableModel.Table(1, 6));

    // a party of 6 fills the table; one more person overflows it by one
    var username, lastname := Ascii("username"), Ascii("lastname2");
    var table := TableModel.Table(1, 6);
    var booking := ReservationModel.Reservation(username, 5, 1);
    assert db.tables == [table] && db.reservations == [];
    assert TableModel.FindTable([table], 1) == Some(table);
    assert ReservationModel.Admit(booking, [table], []) == Pass;
    var r1 := ReservationController.CreateReservation(
      db, username, ReservationController.CreateReservationRequest(1, 5));
    assert r1 == Ok(username);
    assert db.reservations == [booking];
    ReservationModel.OnTableAppend([], booking, 1);
    assert [] + [booking] == [booking];
    assert ReservationModel.Occupancy([booking]) == 6;
    var extra := ReservationModel.Reservation(lastname, 0, 1);
    assert ReservationModel.Admit(extra, [table], [booking]) == Fail(CapacityExceeded(1));
    oneMore := ReservationController.CreateReservation(
      db, lastname, ReservationController.CreateReservationRequest(1, 0));
  }

  /** A party with no reservation cannot check in. */
  method RefuseUnbooked(db: Ledger)
    requires db.Valid()
    requires db.reservations == [ReservationModel.Reservation(Ascii("username"), 5, 1)]
    modifies db
    ensures db.Valid()
    ensures db.tables == old(db.tables) && db.reservations == old(db.reservations)
    ensures db.guests == old(db.guests)
  {
    var username, lastname := Ascii("username"), Ascii("lastname2");
    assert !ReservationModel.NameTaken(db.reservations, lastname) by {
      assert username[0] != lastname[0];
    }
    var g0 := GuestController.CreateGuest(db, lastname, GuestController.CreateGuestRequest(0));
    assert g0 == Err(ReservationNotFound);
  }

  /** The booked guest checks in with one companion. */
  method CheckIn(db: Ledger)
    requires db.Valid()
    requires db.tables == [TableModel.Table(1, 6)]
    requires db.reservations == [ReservationModel.Reservation(Ascii("username"), 5, 1)]
    requires db.guests == []
    modifies db
    ensures db.Valid()
    ensures db.tables == old(db.tables)
    ensures db.guests == [GuestModel.Guest(Ascii("username"), 1, 1)]
  {
    var username := Ascii("username");
    var table := TableModel.Table(1, 6);
    var booking := ReservationModel.Reservation(username, 5, 1);
    var guest := GuestModel.Guest(username, 1, 1);
    assert GuestController.ReservationFor([booking], username) == Some(booking);
    assert GuestModel.Admit(guest, [table], []) == Pass;
    var g1 := GuestController.CreateGuest(db, username, GuestController.CreateGuestRequest(1));
    assert g1 == Ok(username);
  }

  /** Six seats less a party of two leave four empty; once the guest is
      deleted all six are empty again. */
  method CountAndLeave(db: Ledger) returns (emptyWhileSeated: int, emptyAfterLeaving: int)
    requires db.Valid()
    requires db.tables == [TableModel.Table(1, 6)]
    requires db.guests == [GuestModel.Guest(Ascii("username"), 1, 1)]
    modifies db
    ensures emptyWhileSeated == 4 && emptyAfterLeaving == 6
    ensures db.Valid() && db.tables == old(db.tables) && db.guests == []
  {
    var username := Ascii("username");
    var table := TableModel.Table(1, 6);
    var guest := GuestModel.Guest(username, 1, 1);
    assert [table][..0] == [] && [guest][..0] == [];
    assert TableController.TotalCapacity([table]) == 6;
    assert GuestModel.Occupancy([guest]) == 2;
    emptyWhileSeated := TableController.GetSeatsEmpty(db);

    assert GuestModel.WithoutName([guest], username) == [];
    GuestController.DeleteGuest(db, username);
    emptyAfterLeaving := TableController.GetSeatsEmpty(db);
  }

  /** The whole evening: booking, a refused and an accepted check-in, the
      seat count, and the guest leaving. */
  method Evening() returns (emptyWhileSeated: int, emptyAfterLeaving: int)
    ensures emptyWhileSeated == 4 && emptyAfterLeaving == 6
  {
    var db, _, _ := BookTable();
    RefuseUnbooked(db);
    CheckIn(db);
    emptyWhileSeated, emptyAfterLeaving := CountAndLeave(db);
  }
}
