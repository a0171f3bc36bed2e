/**
 * The tables table and the queries the service issues against it: list,
 * read, create, update (a select), updateTable, reservationStatus and
 * destroy.
 */
module TablesService {
  import opened Js
  import opened Middleware
  import opened Query

  /** A dining table; `reservationId` is the nullable `reservation_id` column. */
  datatype Table = Table(tableId: nat, tableName: string, capacity: int, reservationId: Option<nat>)

  /**
   * Whether the store accepts `v` for column `k` on insert: the text column
   * takes a string, number or boolean (the driver sends the last two as
   * their text), `capacity` a number, `reservation_id` null or an id.
   */
  predicate Fits(k: string, v: Json) {
    if k == "table_name" then v.JStr? || v.JNum? || v.JBool?
    else if k == "capacity" then v.JNum?
    else if k == "reservation_id" then v.JNull? || (RowKey(v).Some? && RowKey(v).value.Some?)
    else false
  }

  /** The value the nullable `reservation_id` column takes for a supplied (or absent) value. */
  function Reference(v: Option<Json>): Option<nat> {
    if v.Some? && RowKey(v.value).Some? then RowKey(v.value).value else None
  }

  /**
   * The row `INSERT` stores for a payload: name and capacity are required,
   * every supplied value must fit its column, and the table starts free
   * unless a reservation id is supplied.
   */
  function FromPayload(id: nat, data: Payload): (r: Option<Table>)
    ensures r.Some? <==>
      Lookup(data, "table_name").Some? && Lookup(data, "capacity").Some? &&
      forall i :: 0 <= i < |data| ==> Fits(data[i].0, data[i].1)
    ensures r.Some? ==> r.value.tableId == id
    ensures r.Some? ==> r.value.tableName == JsString(Lookup(data, "table_name").value)
    ensures r.Some? ==> Lookup(data, "capacity") == Some(JNum(r.value.capacity))
    ensures r.Some? && Lookup(data, "reservation_id").None? ==> r.value.reservationId.None?
  {
    var name := Lookup(data, "table_name");
    var capacity := Lookup(data, "capacity");
    if name.Some? && capacity.Some? && forall i :: 0 <= i < |data| ==> Fits(data[i].0, data[i].1) then
      assert Fits("table_name", name.value) && Fits("capacity", capacity.value);
      Some(Table(id, JsString(name.value), capacity.value.n, Reference(Lookup(data, "reservation_id"))))
    else None
  }

  /** The tables table: rows by id and the next value of the id serial. */
  class TablesTable {
    var rows: map<nat, Table>
    var nextId: nat

    ghost predicate Valid()
      reads this
    {
      forall id :: id in rows ==> id < nextId && rows[id].tableId == id
    }

    constructor ()
      ensures Valid() && rows == map[] && nextId == 1
    {
      rows := map[];
      nextId := 1;
    }

    /** `create`: inserts the payload as one new row and returns it. */
    method Create(data: Payload) returns (r: Result<Table>)
      requires Valid()
      modifies this
      ensures Valid()
      ensures FromPayload(old(nextId), data).Some? ==>
        var row := FromPayload(old(nextId), data).value;
        r == Ok(row) && rows == old(rows)[old(nextId) := row] && nextId == old(nextId) + 1
      ensures FromPayload(old(nextId), data).None? ==>
        r == Err(Thrown) && rows == old(rows) && nextId == old(nextId)
    {
      var row := FromPayload(nextId, data);
      if row.None? {
        return Err(Thrown);
      }
      rows := rows[nextId := row.value];
      nextId := nextId + 1;
      r := Ok(row.value);
    }

    /**
     * `updateTable`: sets `reservation_id` of that table only and returns the
     * updated row; None when there is no such table.
     */
    method UpdateTable(reservationId: nat, tableId: nat) returns (r: Option<Table>)
      requires Valid()
      modifies this
      ensures Valid() && nextId == old(nextId)
      ensures tableId in old(rows) ==>
        var row := old(rows)[tableId].(reservationId := Some(reservationId));
        r == Some(row) && rows == old(rows)[tableId := row]
      ensures tableId !in old(rows) ==> r == None && rows == old(rows)
    {
      if tableId !in rows {
        return None;
      }
      var row := rows[tableId].(reservationId := Some(reservationId));
      rows := rows[tableId := row];
      r := Some(row);
    }

    /** `destroy`: deletes that table and no other. */
    method Destroy(tableId: nat)
      requires Valid()
      modifies this
      ensures Valid() && nextId == old(nextId)
      ensures rows == old(rows) - {tableId}
    {
      rows := rows - {tableId};
    }
  }

  function NameKey(t: Table): string {
    t.tableName
  }

  /** `list`: every table once per id holding it, ordered by table name. */
  function List(rows: map<nat, Table>): (out: seq<Table>)
    ensures |out| == |rows|
    ensures forall t :: multiset(out)[t] == |IdsOf(rows, t)|
    ensures forall t :: t in out <==> t in rows.Values
    ensures SortedBy(out, NameKey)
  {
    var scan := Scan(rows);
    var out := SortBy(scan, NameKey);
    assert forall t :: t in out <==> t in multiset(scan);
    assert |out| == |multiset(out)| == |multiset(scan)| == |scan|;
    out
  }

  /** `read`: the table with that id, if any. */
  function Read(rows: map<nat, Table>, tableId: nat): (r: Option<Table>)
    ensures r.Some? <==> tableId in rows
    ensures r.Some? ==> r.value == rows[tableId]
  {
    if tableId in rows then Some(rows[tableId]) else None
  }

  /**
   * `update`: despite its name, only selects the stored row with the given
   * table's id; the values of the given table are not written.
   */
  function Update(rows: map<nat, Table>, updatedTable: Table): (r: Option<Table>)
    ensures r.Some? <==> updatedTable.tableId in rows
    ensures r.Some? ==> r.value == rows[updatedTable.tableId]
  {
    Read(rows, updatedTable.tableId)
  }

  /** `reservationStatus`: the `reservation_id` column of that table, if the table exists. */
  function ReservationStatus(rows: map<nat, Table>, tableId: nat): (r: Option<Option<nat>>)
    ensures r.Some? <==> tableId in rows
    ensures r.Some? ==> r.value == rows[tableId].reservationId
  {
    if tableId in rows then Some(rows[tableId].reservationId) else None
  }
}
