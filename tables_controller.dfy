/**
 * The tables controller: the guards of the create pipeline, seating a
 * reservation at a table (the update pipeline), finishing a seated
 * reservation (the delete pipeline) and the read handler.
 */
module TablesController {
  import opened Js
  import opened Middleware
  import opened Query
  import Reservations = ReservationsService
  import opened TablesService

  /** The guard of both create and seat: the body must carry `data`. */
  function HasData(data: Option<Payload>): (o: Outcome)
    ensures o.Pass? <==> data.Some?
    ensures o.Fail? ==> o == Fail(Rejected(400, "data is missing"))
  {
    if data.None? then Fail(Rejected(400, "data is missing")) else Pass
  }

  const TableFields: seq<string> := ["table_name", "capacity"]

  /** The whitelist guard of create; unlike the reservations one, an empty body passes it. */
  function HasOnlyValidProperties(data: Option<Payload>): (o: Outcome)
    ensures o.Pass? <==> data.None? || forall i :: 0 <= i < |data.value| ==> data.value[i].0 in TableFields
    ensures o.Fail? ==> data.Some?
    ensures o.Fail? ==>
      o == Fail(Rejected(400, "Invalid fields are: " + Join(InvalidFields(Keys(data.value), TableFields), ", ")))
  {
    var keys := if data.None? then [] else Keys(data.value);
    var invalid := InvalidFields(keys, TableFields);
    if |invalid| > 0 then
      assert invalid[0] in keys;
      Fail(Rejected(400, "Invalid fields are: " + Join(invalid, ", ")))
    else Pass
  }

  function HasRequiredProperties(data: Option<Payload>): Outcome {
    HasProperties(TableFields, data)
  }

  /** The capacity guard: `capacity.length || capacity === 0` refuses; null or absent throws. */
  function HasValidCapacity(data: Option<Payload>): (o: Outcome)
    ensures var v := Get(data, "capacity");
      o == Fail(Thrown) <==> v.None? || v.value == JNull
    ensures var v := Get(data, "capacity");
      o == Fail(Rejected(400, "capacity is not valid")) <==>
        v.Some? && v.value != JNull && (Truthy(LengthOf(v.value)) || v.value == JNum(0))
    ensures o.Pass? || o == Fail(Thrown) || o == Fail(Rejected(400, "capacity is not valid"))
  {
    CountCheck(Get(data, "capacity"), "capacity is not valid")
  }

  /** The name guard: a name whose `length` is exactly 1 is refused; null or absent throws. */
  function HasValidLength(data: Option<Payload>): (o: Outcome)
    ensures var v := Get(data, "table_name");
      o.Pass? <==> v.Some? && v.value != JNull && LengthOf(v.value) != Some(JNum(1))
    ensures var v := Get(data, "table_name");
      v.Some? && v.value.JStr? ==> (o.Pass? <==> |v.value.s| != 1)
    ensures o.Pass? || o == Fail(Thrown) || o == Fail(Rejected(400, "table_name should be more then one length"))
  {
    var v := Get(data, "table_name");
    if v.None? || v.value == JNull then Fail(Thrown)
    else if LengthOf(v.value) == Some(JNum(1)) then Fail(Rejected(400, "table_name should be more then one length"))
    else Pass
  }

  /** The guards of the create pipeline, in order; the first refusal is the response. */
  function ValidateTable(data: Option<Payload>): (o: Outcome)
    ensures o.Pass? <==>
      HasData(data).Pass? && HasOnlyValidProperties(data).Pass? && HasRequiredProperties(data).Pass? &&
      HasValidCapacity(data).Pass? && HasValidLength(data).Pass?
    ensures data.None? ==> o == Fail(Rejected(400, "data is missing"))
    ensures (data.Some? && HasOnlyValidProperties(data).Fail?) ==> o == HasOnlyValidProperties(data)
    ensures (data.Some? && HasOnlyValidProperties(data).Pass? && HasRequiredProperties(data).Fail?) ==>
      o == HasRequiredProperties(data)
    ensures (data.Some? && HasOnlyValidProperties(data).Pass? && HasRequiredProperties(data).Pass? &&
             HasValidCapacity(data).Fail?) ==>
      o == HasValidCapacity(data)
    ensures (data.Some? && HasOnlyValidProperties(data).Pass? && HasRequiredProperties(data).Pass? &&
             HasValidCapacity(data).Pass?) ==>
      o == HasValidLength(data)
  {
    var a, b, c := HasData(data), HasOnlyValidProperties(data), HasRequiredProperties(data);
    var d, e := HasValidCapacity(data), HasValidLength(data);
    RunFive(a, b, c, d, e);
    Run([a, b, c, d, e], Itself)
  }

  /**
   * A table stored by create has a non-zero capacity and no reservation (the
   * whitelist keeps `reservation_id` out); a name given as a string does not
   * have length 1.
   */
  lemma CreatedTableIsFree(data: Payload, id: nat)
    requires ValidateTable(Some(data)).Pass?
    ensures FromPayload(id, data).Some? ==>
      var t := FromPayload(id, data).value;
      t.capacity != 0 && t.reservationId.None? &&
      (Lookup(data, "table_name").value.JStr? ==> |t.tableName| != 1)
  {
    if FromPayload(id, data).Some? {
      GuardedTableIsFree(data, id);
    }
  }

  lemma GuardedTableIsFree(data: Payload, id: nat)
    requires HasOnlyValidProperties(Some(data)).Pass?
    requires HasValidCapacity(Some(data)).Pass? && HasValidLength(Some(data)).Pass?
    requires FromPayload(id, data).Some?
    ensures var t := FromPayload(id, data).value;
      t.capacity != 0 && t.reservationId.None? &&
      (Lookup(data, "table_name").value.JStr? ==> |t.tableName| != 1)
  {
  }

  /**
   * The length guard looks at the value given, not at the text stored: a
   * number passes it (numbers have no `length`) and is stored as its text,
   * so a table named "5" can be created.
   */
  lemma NumberNameStoredAsText(id: nat)
    ensures var data: Payload := [("table_name", JNum(5)), ("capacity", JNum(4))];
      ValidateTable(Some(data)).Pass? && FromPayload(id, data) == Some(Table(id, "5", 4, None))
  {
    var data: Payload := [("table_name", JNum(5)), ("capacity", JNum(4))];
    assert Lookup(data, "table_name") == Some(JNum(5));
    assert Lookup(data, "capacity") == Some(JNum(4));
    NumberNamePassesGuards(data);
    NumberNameRow(id, data);
  }

  lemma NumberNameRow(id: nat, data: Payload)
    requires data == [("table_name", JNum(5)), ("capacity", JNum(4))]
    requires Lookup(data, "table_name") == Some(JNum(5)) && Lookup(data, "capacity") == Some(JNum(4))
    ensures FromPayload(id, data) == Some(Table(id, "5", 4, None))
  {
    assert Fits(data[0].0, data[0].1) && Fits(data[1].0, data[1].1);
    assert Lookup(data, "reservation_id") == None;
    assert JsString(JNum(5)) == "5";
  }

  lemma NumberNamePassesGuards(data: Payload)
    requires data == [("table_name", JNum(5)), ("capacity", JNum(4))]
    requires Lookup(data, "table_name") == Some(JNum(5)) && Lookup(data, "capacity") == Some(JNum(4))
    ensures ValidateTable(Some(data)).Pass?
  {
    assert data[0].0 == TableFields[0] && data[1].0 == TableFields[1];
    assert HasOnlyValidProperties(Some(data)).Pass?;
    assert HasRequiredProperties(Some(data)).Pass?;
  }

  /**
   * Neither guard bounds its value from below: an empty name and a negative
   * capacity pass every create guard, and the table is stored as given.
   */
  lemma EmptyNameAndNegativeCapacityAccepted(id: nat, c: int)
    requires c < 0
    ensures var data: Payload := [("table_name", JStr("")), ("capacity", JNum(c))];
      ValidateTable(Some(data)).Pass? && FromPayload(id, data) == Some(Table(id, "", c, None))
  {
    var data: Payload := [("table_name", JStr("")), ("capacity", JNum(c))];
    assert Lookup(data, "table_name") == Some(JStr(""));
    assert Lookup(data, "capacity") == Some(JNum(c));
    EmptyNamePassesGuards(data, c);
    EmptyNameRow(id, data, c);
  }

  lemma EmptyNameRow(id: nat, data: Payload, c: int)
    requires data == [("table_name", JStr("")), ("capacity", JNum(c))]
    requires Lookup(data, "table_name") == Some(JStr("")) && Lookup(data, "capacity") == Some(JNum(c))
    ensures FromPayload(id, data) == Some(Table(id, "", c, None))
  {
    assert Fits(data[0].0, data[0].1) && Fits(data[1].0, data[1].1);
    assert Lookup(data, "reservation_id") == None;
  }

  lemma EmptyNamePassesGuards(data: Payload, c: int)
    requires c < 0
    requires data == [("table_name", JStr("")), ("capacity", JNum(c))]
    requires Lookup(data, "table_name") == Some(JStr("")) && Lookup(data, "capacity") == Some(JNum(c))
    ensures ValidateTable(Some(data)).Pass?
  {
    assert data[0].0 == TableFields[0] && data[1].0 == TableFields[1];
    assert HasOnlyValidProperties(Some(data)).Pass?;
    assert HasRequiredProperties(Some(data)).Pass?;
  }

  /** The create pipeline: the guards, then the insert. */
  method Create(tables: TablesTable, data: Option<Payload>) returns (r: Result<Table>)
    requires tables.Valid()
    modifies tables
    ensures tables.Valid()
    ensures ValidateTable(data).Fail? ==>
      r == Err(ValidateTable(data).failure) && tables.rows == old(tables.rows) && tables.nextId == old(tables.nextId)
    ensures ValidateTable(data).Pass? ==>
      data.Some? &&
      match FromPayload(old(tables.nextId), data.value)
      case None => r == Err(Thrown) && tables.rows == old(tables.rows)
      case Some(t) =>
        r == Ok(t) && tables.rows == old(tables.rows)[t.tableId := t] &&
        t.capacity != 0 && t.reservationId.None?
  {
    var o := ValidateTable(data);
    if o.Fail? {
      return Err(o.failure);
    }
    CreatedTableIsFree(data.value, tables.nextId);
    r := tables.Create(data.value);
  }

  /** The 404 response for a table id in the path. */
  function TableNotFound(tableId: nat): Failure {
    Rejected(404, "Table cannot be found: " + NatToString(tableId))
  }

  /**
   * The read handler as written: it reads the table from `req.locals`, which
   * does not exist, so every request for an existing table throws.
   */
  function ReadHandlerAsWritten(tables: map<nat, Table>, tableId: nat): (r: Result<Table>)
    ensures r.Err?
    ensures r == Err(TableNotFound(tableId)) <==> tableId !in tables
    ensures tableId in tables ==> r == Err(Thrown)
  {
    if tableId !in tables then Err(TableNotFound(tableId)) else Err(Thrown)
  }

  /** The read handler as evidently intended: the stored table, or 404. */
  function ReadHandler(tables: map<nat, Table>, tableId: nat): (r: Result<Table>)
    ensures r.Ok? <==> tableId in tables
    ensures r.Ok? ==> r.value == tables[tableId]
    ensures r.Err? ==> r.failure == TableNotFound(tableId)
  {
    match TablesService.Read(tables, tableId)
    case Some(t) => Ok(t)
    case None => Err(TableNotFound(tableId))
  }

  /** For an existing table the handler as written fails where the intended one answers. */
  lemma ReadFindingWitness(tables: map<nat, Table>, tableId: nat)
    requires tableId in tables
    ensures ReadHandlerAsWritten(tables, tableId) == Err(Thrown)
    ensures ReadHandler(tables, tableId) == Ok(tables[tableId])
  {
  }

  /** Both tables of the database, as the seat and finish handlers see them. */
  datatype Floor = Floor(reservations: map<nat, Reservations.Reservation>, tables: map<nat, Table>)

  /**
   * The reservation id a body's `reservation_id` names: None when the body or
   * the key is missing, or when the value names no row that can exist.
   */
  function BodyId(data: Option<Payload>): Option<nat> {
    var v := Get(data, "reservation_id");
    if v.Some? && RowKey(v.value).Some? then RowKey(v.value).value else None
  }

  /**
   * The seat pipeline's decision: the id of the reservation to seat, or the
   * failure of the first guard that refuses, in the order data, id present,
   * reservation found (a value the database cannot compare with an id
   * throws), table found, capacity, not already seated. The table's own
   * occupant is never consulted.
   */
  function SeatDecision(f: Floor, tableId: nat, data: Option<Payload>): (r: Result<nat>)
    ensures data.None? ==> r == Err(Rejected(400, "data is missing"))
    ensures data.Some? && Get(data, "reservation_id").None? ==> r == Err(MissingProperty("reservation_id"))
    ensures var v := Get(data, "reservation_id");
      data.Some? && v.Some? && RowKey(v.value).None? ==> r == Err(Thrown)
    ensures var v := Get(data, "reservation_id");
      data.Some? && v.Some? && RowKey(v.value).Some? && (BodyId(data).None? || BodyId(data).value !in f.reservations) ==>
        r == Err(Rejected(404, "Reservation cannot found: " + JsString(v.value)))
    ensures BodyId(data).Some? && BodyId(data).value in f.reservations && tableId !in f.tables ==>
      r == Err(TableNotFound(tableId))
    ensures BodyId(data).Some? && BodyId(data).value in f.reservations && tableId in f.tables ==>
      var res := f.reservations[BodyId(data).value];
      if f.tables[tableId].capacity < res.people then r == Err(Rejected(400, "Insufficent table capacity"))
      else if res.status == "seated" then r == Err(Rejected(400, "table is already occupied or seated"))
      else r == Ok(BodyId(data).value)
  {
    if HasData(data).Fail? then Err(HasData(data).failure)
    else if HasProperties(["reservation_id"], data).Fail? then Err(HasProperties(["reservation_id"], data).failure)
    else
      assert Get(data, ["reservation_id"][0]).Some?;
      var v := Get(data, "reservation_id").value;
      var key := RowKey(v);
      if key.None? then Err(Thrown)
      else if key.value.None? || key.value.value !in f.reservations then
        Err(Rejected(404, "Reservation cannot found: " + JsString(v)))
      else
        var rid := key.value.value;
        if tableId !in f.tables then Err(TableNotFound(tableId))
        else if f.tables[tableId].capacity < f.reservations[rid].people then
          Err(Rejected(400, "Insufficent table capacity"))
        else if f.reservations[rid].status == "seated" then
          Err(Rejected(400, "table is already occupied or seated"))
        else Ok(rid)
  }

  /** What a successful seat writes: the table's reservation, then the reservation's status. */
  function Seated(f: Floor, tableId: nat, rid: nat): Floor
    requires tableId in f.tables && rid in f.reservations
  {
    Floor(f.reservations[rid := f.reservations[rid].(status := "seated")],
          f.tables[tableId := f.tables[tableId].(reservationId := Some(rid))])
  }

  /** The seat pipeline: on success exactly the table's reservation and the reservation's status change. */
  method Seat(reservations: Reservations.ReservationsTable, tables: TablesTable, tableId: nat, data: Option<Payload>)
    returns (r: Result<()>)
    requires reservations.Valid() && tables.Valid()
    modifies reservations, tables
    ensures reservations.Valid() && tables.Valid()
    ensures reservations.nextId == old(reservations.nextId) && tables.nextId == old(tables.nextId)
    ensures var d := SeatDecision(Floor(old(reservations.rows), old(tables.rows)), tableId, data);
      d.Err? ==>
        r == Err(d.failure) && reservations.rows == old(reservations.rows) && tables.rows == old(tables.rows)
    ensures var d := SeatDecision(Floor(old(reservations.rows), old(tables.rows)), tableId, data);
      d.Ok? ==>
        r == Ok(()) &&
        Floor(reservations.rows, tables.rows) == Seated(Floor(old(reservations.rows), old(tables.rows)), tableId, d.value)
  {
    var d := SeatDecision(Floor(reservations.rows, tables.rows), tableId, data);
    if d.Err? {
      return Err(d.failure);
    }
    var updated := tables.UpdateTable(d.value, tableId);
    reservations.UpdateStatus(d.value, "seated");
    r := Ok(());
  }

  /** Whatever reservation the table holds, the seat decision is the same. */
  lemma SeatIgnoresOccupancy(f: Floor, tableId: nat, data: Option<Payload>, occupant: Option<nat>)
    requires tableId in f.tables
    ensures
      var f' := f.(tables := f.tables[tableId := f.tables[tableId].(reservationId := occupant)]);
      SeatDecision(f', tableId, data) == SeatDecision(f, tableId, data)
  {
    var f' := f.(tables := f.tables[tableId := f.tables[tableId].(reservationId := occupant)]);
    assert f'.tables[tableId].capacity == f.tables[tableId].capacity;
  }

  /** The table's party fits at the table: the reservation it holds has no more people than its capacity. */
  predicate PartyFits(f: Floor, t: Table) {
    t.reservationId.None? || t.reservationId.value !in f.reservations ||
    f.reservations[t.reservationId.value].people <= t.capacity
  }

  predicate CapacityRespected(f: Floor) {
    forall tableId :: tableId in f.tables ==> PartyFits(f, f.tables[tableId])
  }

  /** Seating keeps every table's party within its capacity. */
  lemma SeatKeepsCapacity(f: Floor, tableId: nat, data: Option<Payload>)
    requires CapacityRespected(f)
    requires SeatDecision(f, tableId, data).Ok?
    ensures CapacityRespected(Seated(f, tableId, SeatDecision(f, tableId, data).value))
  {
    var rid := SeatDecision(f, tableId, data).value;
    var g := Seated(f, tableId, rid);
    forall t | t in g.tables ensures PartyFits(g, g.tables[t]) {
      if t != tableId {
        assert g.tables[t] == f.tables[t];
        assert PartyFits(f, f.tables[t]);
        var o := f.tables[t].reservationId;
        if o.Some? && o.value in f.reservations {
          assert g.reservations[o.value].people == f.reservations[o.value].people;
        }
      }
    }
  }

  /**
   * Seating over an occupied table drops the previous occupant from every
   * table while its reservation keeps its status: a "seated" reservation is
   * left at no table.
   */
  lemma SeatStrandsOccupant(f: Floor, tableId: nat, data: Option<Payload>, previous: nat)
    requires SeatDecision(f, tableId, data).Ok?
    requires f.tables[tableId].reservationId == Some(previous)
    requires previous != SeatDecision(f, tableId, data).value
    requires forall t :: t in f.tables && t != tableId ==> f.tables[t].reservationId != Some(previous)
    ensures var g := Seated(f, tableId, SeatDecision(f, tableId, data).value);
      (forall t :: t in g.tables ==> g.tables[t].reservationId != Some(previous)) &&
      (previous in f.reservations ==> previous in g.reservations && g.reservations[previous] == f.reservations[previous])
  {
    var g := Seated(f, tableId, SeatDecision(f, tableId, data).value);
    forall t | t in g.tables ensures g.tables[t].reservationId != Some(previous) {
      if t != tableId {
        assert g.tables[t] == f.tables[t];
      }
    }
  }

  /**
   * Two different reservations that could each be seated at a table can both
   * be seated there, one after the other: the second seat is not refused as
   * occupied.
   */
  lemma SecondSeatAtSameTable(f: Floor, tableId: nat, first: Option<Payload>, second: Option<Payload>)
    requires SeatDecision(f, tableId, first).Ok? && SeatDecision(f, tableId, second).Ok?
    requires SeatDecision(f, tableId, first).value != SeatDecision(f, tableId, second).value
    ensures var g := Seated(f, tableId, SeatDecision(f, tableId, first).value);
      g.tables[tableId].reservationId == Some(SeatDecision(f, tableId, first).value) &&
      SeatDecision(g, tableId, second) == SeatDecision(f, tableId, second)
  {
    var r1, r2 := SeatDecision(f, tableId, first).value, SeatDecision(f, tableId, second).value;
    var g := Seated(f, tableId, r1);
    assert g.reservations[r2] == f.reservations[r2];
    assert g.tables[tableId].capacity == f.tables[tableId].capacity;
  }

  /**
   * The finish pipeline's decision: 404 for an unknown table, then the
   * reservation named in the body must be seated. Which table was named plays
   * no further part; a missing body, id or reservation, or a value the
   * database cannot compare with an id, throws.
   */
  function FinishDecision(f: Floor, tableId: nat, data: Option<Payload>): (r: Result<nat>)
    ensures tableId !in f.tables ==> r == Err(TableNotFound(tableId))
    ensures tableId in f.tables && (BodyId(data).None? || BodyId(data).value !in f.reservations) ==>
      r == Err(Thrown)
    ensures tableId in f.tables && BodyId(data).Some? && BodyId(data).value in f.reservations ==>
      if f.reservations[BodyId(data).value].status == "seated" then r == Ok(BodyId(data).value)
      else r == Err(Rejected(400, "table is not occupied or seated"))
  {
    if tableId !in f.tables then Err(TableNotFound(tableId))
    else if data.None? then Err(Thrown)
    else
      var v := Get(data, "reservation_id");
      if v.None? then Err(Thrown)
      else
        var key := RowKey(v.value);
        if key.None? || key.value.None? || key.value.value !in f.reservations then Err(Thrown)
        else if f.reservations[key.value.value].status == "seated" then Ok(key.value.value)
        else Err(Rejected(400, "table is not occupied or seated"))
  }

  /** Two existing tables give the same finish decision for the same body. */
  lemma FinishIgnoresTable(f: Floor, t1: nat, t2: nat, data: Option<Payload>)
    requires t1 in f.tables && t2 in f.tables
    ensures FinishDecision(f, t1, data) == FinishDecision(f, t2, data)
  {
  }

  /** What a successful finish writes: the reservation's status only. */
  function Finished(f: Floor, rid: nat): Floor
    requires rid in f.reservations
  {
    f.(reservations := f.reservations[rid := f.reservations[rid].(status := "finished")])
  }

  /** The finish pipeline: on success only the reservation's status changes; every table keeps its reservation. */
  method Finish(reservations: Reservations.ReservationsTable, tables: TablesTable, tableId: nat, data: Option<Payload>)
    returns (r: Result<()>)
    requires reservations.Valid()
    modifies reservations
    ensures reservations.Valid() && reservations.nextId == old(reservations.nextId)
    ensures var d := FinishDecision(Floor(old(reservations.rows), tables.rows), tableId, data);
      d.Err? ==> r == Err(d.failure) && reservations.rows == old(reservations.rows)
    ensures var d := FinishDecision(Floor(old(reservations.rows), tables.rows), tableId, data);
      d.Ok? ==>
        r == Ok(()) &&
        Floor(reservations.rows, tables.rows) == Finished(Floor(old(reservations.rows), tables.rows), d.value)
  {
    var d := FinishDecision(Floor(reservations.rows, tables.rows), tableId, data);
    if d.Err? {
      return Err(d.failure);
    }
    reservations.UpdateStatus(d.value, "finished");
    r := Ok(());
  }

  /**
   * After a finish the table still holds the finished reservation, and the
   * reservation can be seated again: finishing does not free the table.
   */
  lemma FinishKeepsTableOccupied(f: Floor, tableId: nat, data: Option<Payload>)
    requires FinishDecision(f, tableId, data).Ok?
    ensures var rid := FinishDecision(f, tableId, data).value;
      var g := Finished(f, rid);
      g.tables == f.tables && g.reservations[rid].status == "finished" &&
      (forall t :: t in g.tables && g.tables[t].capacity >= g.reservations[rid].people ==>
        SeatDecision(g, t, data) == Ok(rid))
  {
    var rid := FinishDecision(f, tableId, data).value;
    var g := Finished(f, rid);
    forall t | t in g.tables && g.tables[t].capacity >= g.reservations[rid].people
      ensures SeatDecision(g, t, data) == Ok(rid)
    {
      assert BodyId(data) == Some(rid);
    }
  }
}
