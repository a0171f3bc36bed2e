/**
 * The reservations table and the queries the service issues against it:
 * list, listDate, read, create, update, destroy, checkStatus, updateStatus
 * and the phone-number search.
 */
module ReservationsService {
  import opened Js
  import opened Middleware
  import opened Query
  import opened DateTime

  datatype Reservation = Reservation(
    reservationId: nat,
    firstName: string,
    lastName: string,
    mobileNumber: string,
    reservationDate: string,
    reservationTime: string,
    people: int,
    status: string,
    createdAt: string,
    updatedAt: string)

  /** A column of a row as the JSON value a query returns; None for a name that is not a column. */
  function Column(r: Reservation, k: string): Option<Json> {
    if k == "reservation_id" then Some(JNum(r.reservationId))
    else if k == "first_name" then Some(JStr(r.firstName))
    else if k == "last_name" then Some(JStr(r.lastName))
    else if k == "mobile_number" then Some(JStr(r.mobileNumber))
    else if k == "reservation_date" then Some(JStr(r.reservationDate))
    else if k == "reservation_time" then Some(JStr(r.reservationTime))
    else if k == "people" then Some(JNum(r.people))
    else if k == "status" then Some(JStr(r.status))
    else if k == "created_at" then Some(JStr(r.createdAt))
    else if k == "updated_at" then Some(JStr(r.updatedAt))
    else None
  }

  /** The plain text columns: the driver sends a number or boolean given for one as its text. */
  const TextColumns: seq<string> := ["first_name", "last_name", "mobile_number", "status"]

  /** The date, time and timestamp columns, written from strings. */
  const DateColumns: seq<string> := ["reservation_date", "reservation_time", "created_at", "updated_at"]

  /**
   * Whether the store accepts `v` for column `k` of row `id`: a text column
   * takes a string, number or boolean, a date or time column a string,
   * `people` a number, and the id column only a value naming the row's own id.
   */
  predicate Fits(id: nat, k: string, v: Json) {
    if k == "reservation_id" then RowKey(v) == Some(Some(id))
    else if k == "people" then v.JNum?
    else if k in TextColumns then v.JStr? || v.JNum? || v.JBool?
    else if k in DateColumns then v.JStr?
    else false
  }

  /** The value column k holds after v is written to it: a text column holds `String(v)`. */
  function Stored(k: string, v: Json): Json {
    if k in TextColumns then JStr(JsString(v))
    else if k == "reservation_id" && RowKey(v).Some? && RowKey(v).value.Some? then JNum(RowKey(v).value.value)
    else v
  }

  /** Writes one column of a row; None where the store would refuse the value. */
  function SetColumn(r: Reservation, k: string, v: Json): (r': Option<Reservation>)
    ensures r'.Some? <==> Fits(r.reservationId, k, v)
    ensures r'.Some? ==> r'.value.reservationId == r.reservationId && Column(r'.value, k) == Some(Stored(k, v))
    ensures r'.Some? ==> forall k' :: k' != k ==> Column(r'.value, k') == Column(r, k')
  {
    if !Fits(r.reservationId, k, v) then None
    else if k == "reservation_id" then Some(r)
    else if k == "first_name" then Some(r.(firstName := JsString(v)))
    else if k == "last_name" then Some(r.(lastName := JsString(v)))
    else if k == "mobile_number" then Some(r.(mobileNumber := JsString(v)))
    else if k == "reservation_date" then Some(r.(reservationDate := v.s))
    else if k == "reservation_time" then Some(r.(reservationTime := v.s))
    else if k == "people" then Some(r.(people := v.n))
    else if k == "status" then Some(r.(status := JsString(v)))
    else if k == "created_at" then Some(r.(createdAt := v.s))
    else Some(r.(updatedAt := v.s))
  }

  /**
   * `UPDATE ... SET <supplied columns>`: every supplied column takes the
   * supplied value (as text in a text column), every other column keeps its
   * value; a value the store refuses fails the whole write.
   */
  function ApplyPatch(r: Reservation, patch: seq<(string, Json)>): (r': Option<Reservation>)
    ensures r'.Some? <==> forall i :: 0 <= i < |patch| ==> Fits(r.reservationId, patch[i].0, patch[i].1)
    ensures r'.Some? ==> r'.value.reservationId == r.reservationId
    ensures r'.Some? ==>
      forall k :: Column(r'.value, k) ==
        (if Lookup(patch, k).Some? then Some(Stored(k, Lookup(patch, k).value)) else Column(r, k))
    decreases |patch|
  {
    if patch == [] then Some(r)
    else
      var first := SetColumn(r, patch[0].0, patch[0].1);
      if first.None? then None
      else
        var rest := ApplyPatch(first.value, patch[1..]);
        assert forall i :: 1 <= i < |patch| ==> patch[1..][i - 1] == patch[i];
        rest
  }

  /** A column the patch does not supply keeps its value. */
  lemma PatchKeeps(r: Reservation, patch: seq<(string, Json)>, k: string)
    requires ApplyPatch(r, patch).Some?
    ensures Lookup(patch, k).None? ==> Column(ApplyPatch(r, patch).value, k) == Column(r, k)
  {
  }

  /** The columns the table requires on insert. */
  const Required: seq<string> :=
    ["first_name", "last_name", "mobile_number", "reservation_date", "reservation_time", "people"]

  /** The row an insert starts from: the serial id, the default status and the insert time stamps. */
  function Defaults(id: nat, stamp: string): Reservation {
    Reservation(id, "", "", "", "", "", 0, "booked", stamp, stamp)
  }

  /**
   * The row `INSERT` stores for a payload: the supplied columns over the
   * defaults, provided every required column is supplied and every supplied
   * value fits its column.
   */
  function FromPayload(id: nat, data: Payload, stamp: string): (r: Option<Reservation>)
    ensures r.Some? <==>
      (forall i :: 0 <= i < |Required| ==> Lookup(data, Required[i]).Some?) &&
      (forall i :: 0 <= i < |data| ==> Fits(id, data[i].0, data[i].1))
    ensures r.Some? ==> r.value.reservationId == id
    ensures r.Some? ==> forall k :: Lookup(data, k).Some? ==> Column(r.value, k) == Some(Stored(k, Lookup(data, k).value))
    ensures r.Some? && Lookup(data, "status").None? ==> r.value.status == "booked"
    ensures r.Some? ==> r.value.createdAt == stamp || Lookup(data, "created_at").Some?
  {
    if forall i :: 0 <= i < |Required| ==> Lookup(data, Required[i]).Some? then
      var r := ApplyPatch(Defaults(id, stamp), data);
      if r.Some? then
        PatchKeeps(Defaults(id, stamp), data, "status");
        PatchKeeps(Defaults(id, stamp), data, "created_at");
        r
      else r
    else None
  }

  /** The reservations table: rows by id and the next value of the id serial. */
  class ReservationsTable {
    var rows: map<nat, Reservation>
    var nextId: nat

    ghost predicate Valid()
      reads this
    {
      forall id :: id in rows ==> id < nextId && rows[id].reservationId == id
    }

    constructor ()
      ensures Valid() && rows == map[] && nextId == 1
    {
      rows := map[];
      nextId := 1;
    }

    /** `create`: inserts the payload as one new row and returns it. */
    method Create(data: Payload, stamp: string) returns (r: Result<Reservation>)
      requires Valid()
      modifies this
      ensures Valid()
      ensures FromPayload(old(nextId), data, stamp).Some? ==>
        var row := FromPayload(old(nextId), data, stamp).value;
        r == Ok(row) && rows == old(rows)[old(nextId) := row] && nextId == old(nextId) + 1
      ensures FromPayload(old(nextId), data, stamp).None? ==>
        r == Err(Thrown) && rows == old(rows) && nextId == old(nextId)
    {
      var row := FromPayload(nextId, data, stamp);
      if row.None? {
        return Err(Thrown);
      }
      rows := rows[nextId := row.value];
      nextId := nextId + 1;
      r := Ok(row.value);
    }

    /**
     * `update`: overwrites the supplied columns of the row named by the
     * payload's `reservation_id` and returns the updated row; None when no
     * row has that id.
     */
    method Update(patch: Payload) returns (r: Result<Option<Reservation>>)
      requires Valid()
      modifies this
      ensures Valid() && nextId == old(nextId)
      ensures Lookup(patch, "reservation_id").None? ==> r == Err(Thrown) && rows == old(rows)
      ensures var v := Lookup(patch, "reservation_id");
        v.Some? && RowKey(v.value).None? ==> r == Err(Thrown) && rows == old(rows)
      ensures var v := Lookup(patch, "reservation_id");
        v.Some? && RowKey(v.value).Some? && (RowKey(v.value).value.None? || RowKey(v.value).value.value !in old(rows)) ==>
          r == Ok(None) && rows == old(rows)
      ensures var v := Lookup(patch, "reservation_id");
        v.Some? && RowKey(v.value).Some? && RowKey(v.value).value.Some? && RowKey(v.value).value.value in old(rows) ==>
          var id := RowKey(v.value).value.value;
          var row := ApplyPatch(old(rows)[id], patch);
          (row.None? ==> r == Err(Thrown) && rows == old(rows)) &&
          (row.Some? ==> r == Ok(row) && rows == old(rows)[id := row.value])
    {
      var v := Lookup(patch, "reservation_id");
      if v.None? {
        // knex refuses a WHERE on an undefined binding
        return Err(Thrown);
      }
      var key := RowKey(v.value);
      if key.None? {
        // the database refuses to compare the id column with that value
        return Err(Thrown);
      }
      if key.value.None? || key.value.value !in rows {
        return Ok(None);
      }
      var id := key.value.value;
      var row := ApplyPatch(rows[id], patch);
      if row.None? {
        return Err(Thrown);
      }
      rows := rows[id := row.value];
      r := Ok(Some(row.value));
    }

    /** `updateStatus`: sets the status of the row with that id; no other row or column changes. */
    method UpdateStatus(id: nat, status: string)
      requires Valid()
      modifies this
      ensures Valid() && nextId == old(nextId)
      ensures id in old(rows) ==> rows == old(rows)[id := old(rows)[id].(status := status)]
      ensures id !in old(rows) ==> rows == old(rows)
    {
      if id in rows {
        rows := rows[id := rows[id].(status := status)];
      }
    }

    /** `destroy`: deletes the row with that id and no other. */
    method Destroy(id: nat)
      requires Valid()
      modifies this
      ensures Valid() && nextId == old(nextId)
      ensures rows == old(rows) - {id}
    {
      rows := rows - {id};
    }
  }

  function TimeKey(r: Reservation): string {
    r.reservationTime
  }

  function DateKey(r: Reservation): string {
    r.reservationDate
  }

  /** `list`: every reservation once per id holding it, ordered by reservation time. */
  function List(rows: map<nat, Reservation>): (out: seq<Reservation>)
    ensures |out| == |rows|
    ensures forall r :: multiset(out)[r] == |IdsOf(rows, r)|
    ensures forall r :: r in out <==> r in rows.Values
    ensures SortedBy(out, TimeKey)
  {
    var scan := Scan(rows);
    var out := SortBy(scan, TimeKey);
    assert forall r :: r in out <==> r in multiset(scan);
    assert |out| == |multiset(out)| == |multiset(scan)| == |scan|;
    out
  }

  /** The reservations on a day's schedule: that date, and not finished. */
  predicate OnSchedule(r: Reservation, date: string) {
    r.reservationDate == date && r.status != "finished"
  }

  /** `listDate`: the reservations on that date that are not finished, each once per id, ordered by time. */
  function ListDate(rows: map<nat, Reservation>, date: string): (out: seq<Reservation>)
    ensures forall r :: multiset(out)[r] == if OnSchedule(r, date) then |IdsOf(rows, r)| else 0
    ensures forall r :: r in out <==> r in rows.Values && OnSchedule(r, date)
    ensures SortedBy(out, TimeKey)
  {
    Select(rows, (r: Reservation) => OnSchedule(r, date), TimeKey)
  }

  /**
   * In a valid table every row names its own id, so no query lists a row
   * twice.
   */
  lemma OnceEach(rows: map<nat, Reservation>, r: Reservation)
    requires forall id :: id in rows ==> rows[id].reservationId == id
    ensures |IdsOf(rows, r)| <= 1
  {
    assert IdsOf(rows, r) <= {r.reservationId};
    if r.reservationId in IdsOf(rows, r) {
      assert IdsOf(rows, r) == {r.reservationId};
    } else {
      assert IdsOf(rows, r) == {};
    }
  }

  /** `read`: the row with that id, if any. */
  function Read(rows: map<nat, Reservation>, id: nat): (r: Option<Reservation>)
    ensures r.Some? <==> id in rows
    ensures r.Some? ==> r.value == rows[id]
  {
    if id in rows then Some(rows[id]) else None
  }

  /** `checkStatus`: the status of the row with that id, if any. */
  function CheckStatus(rows: map<nat, Reservation>, id: nat): (s: Option<string>)
    ensures s.Some? <==> id in rows
    ensures s.Some? ==> s.value == rows[id].status
  {
    if id in rows then Some(rows[id].status) else None
  }

  /** The characters `translate(mobile_number, '() -', '')` deletes. */
  predicate IsPunctuation(c: char) {
    c == '(' || c == ')' || c == ' ' || c == '-'
  }

  /** `translate(s, '() -', '')`: s without parentheses, spaces and dashes, order kept. */
  function StripPunctuation(s: string): (r: string)
    ensures |r| <= |s|
  {
    if s == [] then []
    else
      var rest := StripPunctuation(s[1..]);
      if IsPunctuation(s[0]) then rest else [s[0]] + rest
  }

  /** `s.replace(/\D/g, '')`: only the decimal digits of s, order kept. */
  function DigitsOnly(s: string): (r: string)
    ensures forall i :: 0 <= i < |r| ==> IsDigit(r[i])
    ensures |r| <= |s|
  {
    if s == [] then []
    else
      var rest := DigitsOnly(s[1..]);
      if IsDigit(s[0]) then [s[0]] + rest else rest
  }

  /** Stripping keeps every other character as often as it occurs. */
  lemma {:induction false} StripPunctuationCount(s: string)
    ensures forall c :: multiset(StripPunctuation(s))[c] == if IsPunctuation(c) then 0 else multiset(s)[c]
  {
    if s != [] {
      StripPunctuationCount(s[1..]);
      assert s == [s[0]] + s[1..];
      assert multiset(s) == multiset{s[0]} + multiset(s[1..]);
    }
  }

  /** Keeping the digits keeps each digit as often as it occurs. */
  lemma {:induction false} DigitsOnlyCount(s: string)
    ensures forall c :: multiset(DigitsOnly(s))[c] == if IsDigit(c) then multiset(s)[c] else 0
  {
    if s != [] {
      DigitsOnlyCount(s[1..]);
      assert s == [s[0]] + s[1..];
      assert multiset(s) == multiset{s[0]} + multiset(s[1..]);
    }
  }

  /** Stripping keeps the order of what it keeps: it distributes over concatenation. */
  lemma {:induction false} StripPunctuationConcat(a: string, b: string)
    ensures StripPunctuation(a + b) == StripPunctuation(a) + StripPunctuation(b)
  {
    if a == [] {
      assert a + b == b;
    } else {
      var ab := a + b;
      assert ab[0] == a[0] && ab[1..] == a[1..] + b;
      StripPunctuationConcat(a[1..], b);
      StripFirst(ab);
      StripFirst(a);
      var head := if IsPunctuation(a[0]) then [] else [a[0]];
      assert head + (StripPunctuation(a[1..]) + StripPunctuation(b)) ==
        (head + StripPunctuation(a[1..])) + StripPunctuation(b);
    }
  }

  /** The first character is kept exactly when it is not punctuation. */
  lemma StripFirst(s: string)
    requires s != []
    ensures StripPunctuation(s) == (if IsPunctuation(s[0]) then [] else [s[0]]) + StripPunctuation(s[1..])
  {
  }

  /** Keeping the digits keeps their order: it distributes over concatenation. */
  lemma {:induction false} DigitsOnlyConcat(a: string, b: string)
    ensures DigitsOnly(a + b) == DigitsOnly(a) + DigitsOnly(b)
  {
    if a == [] {
      assert a + b == b;
    } else {
      var ab := a + b;
      assert ab[0] == a[0] && ab[1..] == a[1..] + b;
      DigitsOnlyConcat(a[1..], b);
      var head := if IsDigit(a[0]) then [a[0]] else [];
      assert DigitsOnly(ab) == head + DigitsOnly(ab[1..]);
      assert DigitsOnly(a) == head + DigitsOnly(a[1..]);
      assert head + (DigitsOnly(a[1..]) + DigitsOnly(b)) == (head + DigitsOnly(a[1..])) + DigitsOnly(b);
    }
  }

  /** The search condition: the stored number, stripped, contains the query's digits. */
  predicate MatchesPhone(r: Reservation, query: string) {
    Contains(StripPunctuation(r.mobileNumber), DigitsOnly(query))
  }

  /** `search`: the reservations whose number matches the query, each once per id, ordered by date. */
  function Search(rows: map<nat, Reservation>, query: string): (out: seq<Reservation>)
    ensures forall r :: multiset(out)[r] == if MatchesPhone(r, query) then |IdsOf(rows, r)| else 0
    ensures forall r :: r in out <==> r in rows.Values && MatchesPhone(r, query)
    ensures SortedBy(out, DateKey)
  {
    Select(rows, (r: Reservation) => MatchesPhone(r, query), DateKey)
  }

  /**
   * For a number written with digits, parentheses, spaces and dashes only,
   * the stored side of the search is exactly its digits.
   */
  lemma {:induction false} StripKeepsDigits(s: string)
    requires forall i :: 0 <= i < |s| ==> IsDigit(s[i]) || IsPunctuation(s[i])
    ensures StripPunctuation(s) == DigitsOnly(s)
  {
    if s != [] {
      StripKeepsDigits(s[1..]);
    }
  }

  /** Such a number matches a query exactly when its digits contain the query's digits. */
  lemma MatchIsDigitwise(r: Reservation, query: string)
    requires forall i :: 0 <= i < |r.mobileNumber| ==>
      IsDigit(r.mobileNumber[i]) || IsPunctuation(r.mobileNumber[i])
    ensures MatchesPhone(r, query) <==> Contains(DigitsOnly(r.mobileNumber), DigitsOnly(query))
  {
    StripKeepsDigits(r.mobileNumber);
  }

  lemma {:induction false} NoDigits(s: string)
    requires forall i :: 0 <= i < |s| ==> !IsDigit(s[i])
    ensures DigitsOnly(s) == []
  {
    if s != [] {
      NoDigits(s[1..]);
    }
  }

  /** A query without digits becomes `LIKE '%%'`, and every reservation matches it. */
  lemma {:induction false} DigitlessQueryMatchesAll(rows: map<nat, Reservation>, query: string)
    requires forall i :: 0 <= i < |query| ==> !IsDigit(query[i])
    ensures forall r :: r in Search(rows, query) <==> r in rows.Values
  {
    NoDigits(query);
    forall r: Reservation ensures MatchesPhone(r, query) {
      assert OccursAt(StripPunctuation(r.mobileNumber), [], 0);
    }
  }
}
