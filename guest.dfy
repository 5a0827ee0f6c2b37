/** models/guest.go: a person who checks in at the event, with the people
    accompanying them. */
module GuestModel {
  import opened Common
  import TableModel
  import Int64

  /** `name` is the primary key of the guest track. The check-in timestamp
      is set by the store and carries no logic. */
  datatype Guest = Guest(name: Name, accompanyingGuests: int, tableId: int)

  /** `TotalGuests()`: the named person plus the people accompanying them,
      so the party holds someone exactly when the count is not negative. */
  function TotalGuests(g: Guest): (n: int)
    ensures n >= 1 <==> g.accompanyingGuests >= 0
  {
    1 + g.accompanyingGuests
  }

  /** A guest is valid exactly when the name has at least six bytes and the
      accompanying count is not negative; the name is checked first. A valid
      guest always takes at least one seat. */
  function Validate(g: Guest): (o: Outcome)
    ensures o.Pass? <==> |g.name| >= MinNameLength && g.accompanyingGuests >= 0
    ensures |g.name| < MinNameLength ==> o == Fail(Invalid(NameTooShort(|g.name|)))
    ensures |g.name| >= MinNameLength && g.accompanyingGuests < 0 ==>
              o == Fail(Invalid(NegativeAccompanying(g.accompanyingGuests)))
    ensures o.Pass? ==> TotalGuests(g) >= 1
  {
    if |g.name| < MinNameLength then Fail(Invalid(NameTooShort(|g.name|)))
    else if g.accompanyingGuests < 0 then Fail(Invalid(NegativeAccompanying(g.accompanyingGuests)))
    else Pass
  }

  /** The guests of the table with key `id`, in store order: what loading
      the table's `Guests` association yields. */
  function OnTable(gs: seq<Guest>, id: int): (sel: seq<Guest>)
    ensures |sel| <= |gs|
    ensures forall g | g in sel :: g in gs && g.tableId == id
    ensures forall g | g in gs && g.tableId == id :: g in sel
  {
    if gs == [] then []
    else
      var init, last := gs[..|gs| - 1], gs[|gs| - 1];
      assert gs == init + [last];
      if last.tableId == id then OnTable(init, id) + [last] else OnTable(init, id)
  }

  /** The seats a sequence of guests occupies: the sum of their
      `TotalGuests()`, 0 for no guests. */
  function Occupancy(gs: seq<Guest>): (sum: int)
  {
    if gs == [] then 0 else Occupancy(gs[..|gs| - 1]) + TotalGuests(gs[|gs| - 1])
  }

  /** True when some guest already has this name. */
  predicate NameTaken(gs: seq<Guest>, name: Name) {
    exists g | g in gs :: g.name == name
  }

  /** No two guests share a name, as the primary key demands. */
  predicate UniqueNames(gs: seq<Guest>) {
    forall i, j | 0 <= i < j < |gs| :: gs[i].name != gs[j].name
  }

  /** What `BeforeCreate` decides for a candidate `g`: validation first, then
      the table lookup, then the capacity comparison over the table's
      guests already checked in. */
  function Admit(g: Guest, tables: seq<TableModel.Table>, gs: seq<Guest>): (o: Outcome)
    ensures o.Pass? ==> Validate(g).Pass? && TableModel.FindTable(tables, g.tableId).Some?
    ensures o.Fail? ==> o.error.Invalid? || o.error == TableNotFound || o.error.CapacityExceeded?
  {
    match Validate(g)
    case Fail(e) => Fail(e)
    case Pass =>
      match TableModel.FindTable(tables, g.tableId)
      case None => Fail(TableNotFound)
      case Some(t) => CapacityCheck(Occupancy(OnTable(gs, t.id)), TotalGuests(g), t.capacity)
  }

  /** The hook the store runs before inserting a guest: it loads the table
      and its guests and adds up their party sizes in a loop. */
  method BeforeCreate(g: Guest, tables: seq<TableModel.Table>, gs: seq<Guest>)
    returns (o: Outcome)
    ensures o == Admit(g, tables, gs)
  {
    o := Validate(g);
    if o.Fail? {
      return;
    }
    var found := TableModel.FindTable(tables, g.tableId);
    if found.None? {
      return Fail(TableNotFound);
    }
    var table := found.value;
    var guests := OnTable(gs, table.id);
    var sum := 0;
    for i := 0 to |guests|
      invariant sum == Occupancy(guests[..i])
    {
      assert guests[..i + 1][..i] == guests[..i];
      sum := sum + TotalGuests(guests[i]);
    }
    assert guests[..|guests|] == guests;
    if sum + TotalGuests(g) > table.capacity {
      return Fail(CapacityExceeded(sum + TotalGuests(g) - table.capacity));
    }
    return Pass;
  }

  /** The guests left after deleting every guest called `name`, in their
      original order. */
  function WithoutName(gs: seq<Guest>, name: Name): (kept: seq<Guest>)
    ensures |kept| <= |gs|
    ensures forall g :: g in kept <==> g in gs && g.name != name
    ensures forall g :: multiset(kept)[g] == if g.name != name then multiset(gs)[g] else 0
  {
    if gs == [] then []
    else
      var init, last := gs[..|gs| - 1], gs[|gs| - 1];
      assert gs == init + [last];
      if last.name != name then WithoutName(init, name) + [last] else WithoutName(init, name)
  }

  /** Adding a guest adds it to its own table's list and to no other. */
  lemma OnTableAppend(gs: seq<Guest>, g: Guest, id: int)
    ensures OnTable(gs + [g], id) == if g.tableId == id then OnTable(gs, id) + [g] else OnTable(gs, id)
  {
    assert (gs + [g])[..|gs|] == gs;
  }

  /** The table's list holds each of its guests as often as the store
      does, and nothing else, so its sum counts every party once. */
  lemma {:induction false} OnTableCounts(gs: seq<Guest>, id: int)
    ensures forall g :: multiset(OnTable(gs, id))[g] == if g.tableId == id then multiset(gs)[g] else 0
  {
    if gs != [] {
      var init, last := gs[..|gs| - 1], gs[|gs| - 1];
      assert gs == init + [last];
      OnTableCounts(init, id);
      OnTableAppend(init, last, id);
    }
  }

  /** A table with no guest for it has no seat occupied. */
  lemma OnTableNone(gs: seq<Guest>, id: int)
    requires forall g | g in gs :: g.tableId != id
    ensures OnTable(gs, id) == [] && Occupancy(OnTable(gs, id)) == 0
  {
  }

  /** A failed validation is reported before any table is consulted, and it
      is the failure the hook returns. */
  lemma AdmitValidatesFirst(g: Guest, tables: seq<TableModel.Table>, gs: seq<Guest>)
    requires Validate(g).Fail?
    ensures Admit(g, tables, gs) == Validate(g)
  {
  }

  /** The hook accepts exactly the valid guests for an existing table whose
      party fits in the seats its guests leave free; it reports capacity
      exceeded exactly when the party does not fit, and the amount reported
      is the overflow. */
  lemma AdmitDecision(g: Guest, tables: seq<TableModel.Table>, gs: seq<Guest>)
    ensures var found := TableModel.FindTable(tables, g.tableId);
      var sum := Occupancy(OnTable(gs, g.tableId));
      && (Admit(g, tables, gs).Pass? <==>
            Validate(g).Pass? && found.Some? && sum + TotalGuests(g) <= found.value.capacity)
      && (Admit(g, tables, gs) == Fail(TableNotFound) <==> Validate(g).Pass? && found.None?)
      && ((Admit(g, tables, gs).Fail? && Admit(g, tables, gs).error.CapacityExceeded?) <==>
            Validate(g).Pass? && found.Some? && sum + TotalGuests(g) > found.value.capacity)
      && ((Admit(g, tables, gs).Fail? && Admit(g, tables, gs).error.CapacityExceeded?) ==>
            Admit(g, tables, gs).error.excess == sum + TotalGuests(g) - found.value.capacity)
  {
  }

  /** After an accepted guest is added, its table is still within capacity
      on the guest track. */
  lemma AdmitKeepsCapacity(g: Guest, tables: seq<TableModel.Table>, gs: seq<Guest>)
    requires Admit(g, tables, gs).Pass?
    ensures TableModel.FindTable(tables, g.tableId).Some?
    ensures Occupancy(OnTable(gs + [g], g.tableId)) <= TableModel.FindTable(tables, g.tableId).value.capacity
  {
    OnTableAppend(gs, g, g.tableId);
  }

  /** A new name keeps the guest track free of duplicates. */
  lemma AppendKeepsUnique(gs: seq<Guest>, g: Guest)
    requires UniqueNames(gs) && !NameTaken(gs, g.name)
    ensures UniqueNames(gs + [g])
  {
    forall i, j | 0 <= i < j < |gs + [g]| ensures (gs + [g])[i].name != (gs + [g])[j].name {
      if j == |gs| {
        assert gs[i] in gs;
      }
    }
  }

  /** Deleting by name never adds seats to any table: with party sizes
      that are never negative, every table's occupancy can only drop. */
  lemma {:induction false} RemovalFreesSeats(gs: seq<Guest>, name: Name, id: int)
    requires forall g | g in gs :: g.accompanyingGuests >= 0
    ensures Occupancy(OnTable(WithoutName(gs, name), id)) <= Occupancy(OnTable(gs, id))
  {
    if gs != [] {
      var init, last := gs[..|gs| - 1], gs[|gs| - 1];
      assert gs == init + [last];
      RemovalFreesSeats(init, name, id);
      OnTableAppend(init, last, id);
      var kept := WithoutName(init, name);
      if last.name != name {
        assert WithoutName(gs, name) == kept + [last];
        OnTableAppend(kept, last, id);
        if last.tableId == id {
          OccupancyAppend(OnTable(kept, id), last);
          OccupancyAppend(OnTable(init, id), last);
        }
      } else {
        assert WithoutName(gs, name) == kept;
        if last.tableId == id {
          OccupancyAppend(OnTable(init, id), last);
          assert last in gs;
        }
      }
    }
  }

  /** One more guest adds its party to the count. */
  lemma OccupancyAppend(gs: seq<Guest>, g: Guest)
    ensures Occupancy(gs + [g]) == Occupancy(gs) + TotalGuests(g)
  {
    assert (gs + [g])[..|gs|] == gs;
  }

  /** Guests with no negative count take at least one seat each, so the
      sum is never below the number of guests. */
  lemma {:induction false} OccupancyAtLeastCount(gs: seq<Guest>)
    requires forall g | g in gs :: g.accompanyingGuests >= 0
    ensures Occupancy(gs) >= |gs|
  {
    if gs != [] {
      var init, last := gs[..|gs| - 1], gs[|gs| - 1];
      assert gs == init + [last];
      OccupancyAtLeastCount(init);
    }
  }

  /** Deleting a name nobody has changes nothing. */
  lemma {:induction false} WithoutAbsentName(gs: seq<Guest>, name: Name)
    requires !NameTaken(gs, name)
    ensures WithoutName(gs, name) == gs
  {
    if gs != [] {
      var init, last := gs[..|gs| - 1], gs[|gs| - 1];
      assert gs == init + [last];
      assert last in gs;
      WithoutAbsentName(init, name);
    }
  }

  /** Deleting keeps the names that remain unique. */
  lemma {:induction false} WithoutNameKeepsUnique(gs: seq<Guest>, name: Name)
    requires UniqueNames(gs)
    ensures UniqueNames(WithoutName(gs, name))
  {
    if gs != [] {
      var init, last := gs[..|gs| - 1], gs[|gs| - 1];
      assert gs == init + [last];
      WithoutNameKeepsUnique(init, name);
      var kept := WithoutName(init, name);
      if last.name != name {
        forall i | 0 <= i < |kept| ensures kept[i].name != last.name {
          assert kept[i] in init;
          var k :| 0 <= k < |init| && init[k] == kept[i];
          assert gs[k] == kept[i];
        }
        assert UniqueNames(kept + [last]);
      }
    }
  }

  /** The guest test cases, replayed against the hook. */
  lemma GuestScenarios()
    // an empty capacity-6 table takes a party of 6
    ensures Admit(Guest(Ascii("username"), 5, 1), [TableModel.Table(1, 6)], []) == Pass
    // capacity 9 holding a party of 3 takes a party of 6
    ensures Admit(Guest(Ascii("username"), 5, 1), [TableModel.Table(1, 9)],
                  [Guest(Ascii("lastname"), 2, 1)]) == Pass
    // a four-byte name is rejected
    ensures Admit(Guest(Ascii("user"), 5, 1), [TableModel.Table(1, 6)], []) ==
            Fail(Invalid(NameTooShort(4)))
    // the name is checked before the accompanying count is looked at
    ensures Admit(Guest(Ascii("user"), -5, 1), [TableModel.Table(1, 6)], []) ==
            Fail(Invalid(NameTooShort(4)))
    // a negative accompanying count is rejected
    ensures Admit(Guest(Ascii("username"), -5, 1), [TableModel.Table(1, 6)], []) ==
            Fail(Invalid(NegativeAccompanying(-5)))
    // capacity 5, empty: a party of 6 overflows by 1
    ensures Admit(Guest(Ascii("username"), 5, 1), [TableModel.Table(1, 5)], []) ==
            Fail(CapacityExceeded(1))
    // capacity 8 holding a party of 3: a party of 6 overflows by 1
    ensures Admit(Guest(Ascii("username"), 5, 1), [TableModel.Table(1, 8)],
                  [Guest(Ascii("lastname"), 2, 1)]) == Fail(CapacityExceeded(1))
  {
  }

  // The capacity check as the Go code computes it, in 64-bit `int`.

  /** `TotalGuests()` in Go's `int`. */
  function TotalGuestsInt64(g: Guest): (n: int)
    ensures Int64.InRange(n)
    ensures (n - TotalGuests(g)) % Int64.Modulus == 0
  {
    Int64.Wrap(1 + g.accompanyingGuests)
  }

  /** The loop's `sum` in Go's `int`, wrapping on every addition. */
  function OccupancyInt64(gs: seq<Guest>): (sum: int)
    ensures Int64.InRange(sum)
    ensures (sum - Occupancy(gs)) % Int64.Modulus == 0
  {
    if gs == [] then 0
    else
      var init, last := gs[..|gs| - 1], gs[|gs| - 1];
      Int64.WrapSumCongruent(OccupancyInt64(init), TotalGuestsInt64(last), Occupancy(init), TotalGuests(last));
      Int64.Wrap(OccupancyInt64(init) + TotalGuestsInt64(last))
  }

  /** The hook's decision with every sum computed in Go's `int`. */
  function AdmitInt64(g: Guest, tables: seq<TableModel.Table>, gs: seq<Guest>): (o: Outcome)
    ensures Validate(g).Fail? ==> o == Validate(g)
    ensures o.Pass? ==> Validate(g).Pass? && TableModel.FindTable(tables, g.tableId).Some?
  {
    match Validate(g)
    case Fail(e) => Fail(e)
    case Pass =>
      match TableModel.FindTable(tables, g.tableId)
      case None => Fail(TableNotFound)
      case Some(t) =>
        var need := Int64.Wrap(OccupancyInt64(OnTable(gs, t.id)) + TotalGuestsInt64(g));
        if need > t.capacity then Fail(CapacityExceeded(Int64.Wrap(need - t.capacity))) else Pass
  }

  /** A guest whose accompanying count is the largest Go `int` passes
      validation, and `1 + AccompanyingGuests` wraps to the smallest one, so
      the 64-bit check seats a party far larger than a one-seat table,
      which the exact check refuses. */
  lemma WrappedCheckAdmitsOversizedParty()
    ensures var g := Guest(Ascii("username"), Int64.Max, 1);
      var tables := [TableModel.Table(1, 1)];
      && Int64.InRange(g.accompanyingGuests)
      && Validate(g) == Pass
      && TotalGuestsInt64(g) == Int64.Min
      && AdmitInt64(g, tables, []) == Pass
      && TotalGuests(g) > tables[0].capacity
      && Admit(g, tables, []) == Fail(CapacityExceeded(Int64.Max))
  {
    assert Int64.Wrap(0 + Int64.Min) == Int64.Min;
  }
}
