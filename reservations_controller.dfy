/**
 * The reservations controller: the guards of the create, update and
 * status-update pipelines, and the list, read, create, update and
 * updateStatus handlers over the reservations table.
 */
module ReservationsController {
  import opened Js
  import opened Middleware
  import opened DateTime
  import Query
  import Store = ReservationsService

  /**
   * What a request sees of the outside world: the current instant in
   * milliseconds, the server's time-zone offset in milliseconds ahead of UTC,
   * and how `new Date(text)` reads text that is not a strict `YYYY-MM-DD` date
   * (None for an invalid date).
   */
  datatype Clock = Clock(now: int, offset: int, parse: string -> Option<int>)

  /** The fields a new reservation may carry. */
  const CreateFields: seq<string> :=
    ["first_name", "last_name", "mobile_number", "reservation_date", "reservation_time", "people", "status"]

  /** The fields an update may carry: those of a new reservation and the stored columns. */
  const UpdateFields: seq<string> := CreateFields + ["created_at", "updated_at", "reservation_id"]

  /** The fields both pipelines require. */
  const RequiredFields: seq<string> :=
    ["first_name", "last_name", "mobile_number", "reservation_date", "reservation_time", "people"]

  /** The whitelist guards: a body without fields, or with a field outside the list, is refused. */
  function OnlyFields(data: Option<Payload>, allowed: seq<string>): (o: Outcome)
    ensures o.Pass? <==> data.Some? && |data.value| > 0 && forall i :: 0 <= i < |data.value| ==> data.value[i].0 in allowed
    ensures data.None? || data.value == [] ==> o == Fail(Rejected(400, "data is missing"))
    ensures o.Fail? && data.Some? && data.value != [] ==>
      o == Fail(Rejected(400, "Invalids fields: " + Join(InvalidFields(Keys(data.value), allowed), ", ")))
  {
    var keys := if data.None? then [] else Keys(data.value);
    if |keys| == 0 then Fail(Rejected(400, "data is missing"))
    else
      var invalid := InvalidFields(keys, allowed);
      if |invalid| > 0 then
        assert invalid[0] in keys;
        Fail(Rejected(400, "Invalids fields: " + Join(invalid, ", ")))
      else Pass
  }

  function HasOnlyValidProperties(data: Option<Payload>): Outcome {
    OnlyFields(data, CreateFields)
  }

  function HasOnlyValidUpdateProperties(data: Option<Payload>): Outcome {
    OnlyFields(data, UpdateFields)
  }

  function HasRequiredProperties(data: Option<Payload>): Outcome {
    HasProperties(RequiredFields, data)
  }

  /** The text `moment(v, format, true)` parses: `'' + v`. */
  function MomentText(v: Option<Json>): string {
    if v.None? then "undefined" else JsString(v.value)
  }

  /** `new Date(v).getTime()`; None is NaN. */
  function DateInstant(v: Option<Json>, clock: Clock): Option<int> {
    match v
    case None => None
    case Some(JNull) => Some(0)
    case Some(JBool(b)) => Some(if b then 1 else 0)
    case Some(JNum(n)) => Some(n)
    case Some(x) =>
      var s := JsString(x);
      if IsStrictDate(s) then Some(MidnightUtc(s)) else clock.parse(s)
  }

  /** The decimal text of a number has digits everywhere but perhaps a leading minus sign. */
  lemma NumberText(n: int)
    ensures forall i :: 1 <= i < |IntToString(n)| ==> IsDigit(IntToString(n)[i])
    ensures |IntToString(n)| > 0 && (IsDigit(IntToString(n)[0]) || IntToString(n)[0] == '-')
  {
  }

  /** Only a string, array or object can read as a strict date; it then denotes its UTC midnight. */
  lemma StrictDateIsText(v: Option<Json>, clock: Clock)
    ensures IsStrictDate(MomentText(v)) ==>
      v.Some? && !v.value.JNull? && !v.value.JBool? && !v.value.JNum? &&
      DateInstant(v, clock) == Some(MidnightUtc(MomentText(v)))
  {
    if v.Some? && v.value.JNum? {
      NumberText(v.value.n);
    }
  }

  /**
   * The date guard: the date's instant must not be in the past, its local
   * weekday must not be Tuesday, and it must be a strict `YYYY-MM-DD` date,
   * checked in that order.
   */
  function HasValidDate(data: Option<Payload>, clock: Clock): (o: Outcome)
    ensures var s := MomentText(Get(data, "reservation_date"));
      o.Pass? <==>
        IsStrictDate(s) && clock.now <= MidnightUtc(s) && LocalWeekday(MidnightUtc(s), clock.offset) != 2
    ensures o.Fail? ==>
      o.failure in {Rejected(400, "Current date must be in future"),
                    Rejected(400, "Restaurant is closed on Tuesday"),
                    Rejected(400, "reservation_date is not valid")}
    ensures var t := DateInstant(Get(data, "reservation_date"), clock);
      t.Some? && t.value < clock.now ==> o == Fail(Rejected(400, "Current date must be in future"))
    ensures var t := DateInstant(Get(data, "reservation_date"), clock);
      t.Some? && clock.now <= t.value && LocalWeekday(t.value, clock.offset) == 2 ==>
        o == Fail(Rejected(400, "Restaurant is closed on Tuesday"))
    ensures var t := DateInstant(Get(data, "reservation_date"), clock);
      (t.None? || (clock.now <= t.value && LocalWeekday(t.value, clock.offset) != 2)) &&
      !IsStrictDate(MomentText(Get(data, "reservation_date"))) ==>
        o == Fail(Rejected(400, "reservation_date is not valid"))
    ensures var s := MomentText(Get(data, "reservation_date"));
      IsStrictDate(s) && MidnightUtc(s) < clock.now ==> o == Fail(Rejected(400, "Current date must be in future"))
    ensures var s := MomentText(Get(data, "reservation_date"));
      IsStrictDate(s) && clock.now <= MidnightUtc(s) && LocalWeekday(MidnightUtc(s), clock.offset) == 2 ==>
        o == Fail(Rejected(400, "Restaurant is closed on Tuesday"))
  {
    var v := Get(data, "reservation_date");
    var t := DateInstant(v, clock);
    StrictDateIsText(v, clock);
    if t.Some? && t.value < clock.now then
      Fail(Rejected(400, "Current date must be in future"))
    else if t.Some? && LocalWeekday(t.value, clock.offset) == 2 then
      Fail(Rejected(400, "Restaurant is closed on Tuesday"))
    else if IsStrictDate(MomentText(v)) then
      Pass
    else
      Fail(Rejected(400, "reservation_date is not valid"))
  }

  /** With the server in UTC, the Tuesday guard closes exactly the calendar Tuesdays. */
  lemma TuesdayGuardInUtc(data: Option<Payload>, clock: Clock, s: string)
    requires clock.offset == 0
    requires Get(data, "reservation_date") == Some(JStr(s)) && IsStrictDate(s) && clock.now <= MidnightUtc(s)
    ensures HasValidDate(data, clock).Pass? <==> CivilWeekday(s) != 2
  {
    WeekdayInUtc(s);
    assert MomentText(Get(data, "reservation_date")) == s;
  }

  /**
   * West of UTC the Tuesday guard reads the weekday of the evening before:
   * it closes calendar Wednesdays and lets calendar Tuesdays through.
   */
  lemma TuesdayGuardWestOfUtc(data: Option<Payload>, clock: Clock, s: string)
    requires -MsPerDay <= clock.offset < 0
    requires Get(data, "reservation_date") == Some(JStr(s)) && IsStrictDate(s) && clock.now <= MidnightUtc(s)
    ensures HasValidDate(data, clock).Pass? <==> CivilWeekday(s) != 3
  {
    WeekdayWestOfUtc(s, clock.offset);
    assert MomentText(Get(data, "reservation_date")) == s;
    var w := CivilWeekday(s);
    assert (w + 6) % 7 == 2 <==> w == 3;
  }

  /**
   * What `v < '10:30'` compares as a string: strings, arrays and objects
   * convert to text; undefined, null, numbers and booleans compare as numbers
   * against NaN, which is never smaller or larger.
   */
  function ComparedText(v: Option<Json>): Option<string> {
    if v.Some? && (v.value.JStr? || v.value.JArr? || v.value.JObj?) then Some(JsString(v.value)) else None
  }

  /**
   * Only a string, array or object can read as a strict time, and for one
   * that does, string order against the opening hours is clock order.
   */
  lemma StrictTimeIsText(v: Option<Json>)
    ensures IsStrictTime(MomentText(v)) ==>
      var s := MomentText(v);
      ComparedText(v) == Some(s) &&
      (StrLess(s, "10:30") <==> MinutesOfDay(s) < 630) &&
      (StrLess("21:30", s) <==> 1290 < MinutesOfDay(s))
  {
    if IsStrictTime(MomentText(v)) {
      var s := MomentText(v);
      if v.Some? && v.value.JNum? {
        NumberText(v.value.n);
      }
      TimeStringOrder(s, "10:30");
      TimeStringOrder("21:30", s);
    }
  }

  /**
   * The time guard: outside 10:30 to 21:30 by string order is refused first,
   * then anything but a strict `HH:mm` time.
   */
  function HasValidTime(data: Option<Payload>): (o: Outcome)
    ensures var s := MomentText(Get(data, "reservation_time"));
      o.Pass? <==> IsStrictTime(s) && 630 <= MinutesOfDay(s) <= 1290
    ensures o.Fail? ==>
      o.failure in {Rejected(400, "Invalid reservation_time"), Rejected(400, "reservation_time is not valid")}
    ensures var t := ComparedText(Get(data, "reservation_time"));
      t.Some? && (StrLess(t.value, "10:30") || StrLess("21:30", t.value)) ==>
        o == Fail(Rejected(400, "Invalid reservation_time"))
    ensures var t := ComparedText(Get(data, "reservation_time"));
      (t.None? || (!StrLess(t.value, "10:30") && !StrLess("21:30", t.value))) &&
      !IsStrictTime(MomentText(Get(data, "reservation_time"))) ==>
        o == Fail(Rejected(400, "reservation_time is not valid"))
    ensures var s := MomentText(Get(data, "reservation_time"));
      IsStrictTime(s) && !(630 <= MinutesOfDay(s) <= 1290) ==> o == Fail(Rejected(400, "Invalid reservation_time"))
    ensures Get(data, "reservation_time") == Some(JStr("24:00")) ==> o == Fail(Rejected(400, "Invalid reservation_time"))
  {
    var v := Get(data, "reservation_time");
    var t := ComparedText(v);
    StrictTimeIsText(v);
    if t.Some? && (StrLess(t.value, "10:30") || StrLess("21:30", t.value)) then
      Fail(Rejected(400, "Invalid reservation_time"))
    else if IsStrictTime(MomentText(v)) then
      Pass
    else
      Fail(Rejected(400, "reservation_time is not valid"))
  }

  /** The people guard: `people.length || people === 0` refuses; null or absent throws. */
  function HasValidPeople(data: Option<Payload>): (o: Outcome)
    ensures var v := Get(data, "people");
      o == Fail(Thrown) <==> v.None? || v.value == JNull
    ensures var v := Get(data, "people");
      o == Fail(Rejected(400, "people is not valid")) <==>
        v.Some? && v.value != JNull && (Truthy(LengthOf(v.value)) || v.value == JNum(0))
    ensures o.Pass? || o == Fail(Thrown) || o == Fail(Rejected(400, "people is not valid"))
  {
    CountCheck(Get(data, "people"), "people is not valid")
  }

  /** The status guard of create: a truthy status other than "booked" is refused. */
  function HasValidStatus(data: Option<Payload>): (o: Outcome)
    ensures var v := Get(data, "status");
      o.Pass? <==> !Truthy(v) || v == Some(JStr("booked"))
    ensures o.Fail? ==> o == Fail(Rejected(400, "invalid status: " + JsString(Get(data, "status").value)))
  {
    var v := Get(data, "status");
    if Truthy(v) && v != Some(JStr("booked")) then
      Fail(Rejected(400, "invalid status: " + JsString(v.value)))
    else Pass
  }

  /** The guards of the create pipeline, in order; the first refusal is the response. */
  function ValidateCreate(data: Option<Payload>, clock: Clock): (o: Outcome)
    ensures o.Pass? <==>
      HasOnlyValidProperties(data).Pass? && HasRequiredProperties(data).Pass? &&
      HasValidDate(data, clock).Pass? && HasValidTime(data).Pass? &&
      HasValidPeople(data).Pass? && HasValidStatus(data).Pass?
    ensures HasOnlyValidProperties(data).Fail? ==> o == HasOnlyValidProperties(data)
    ensures (HasOnlyValidProperties(data).Pass? && HasRequiredProperties(data).Fail?) ==>
      o == HasRequiredProperties(data)
    ensures (HasOnlyValidProperties(data).Pass? && HasRequiredProperties(data).Pass? &&
             HasValidDate(data, clock).Fail?) ==>
      o == HasValidDate(data, clock)
    ensures (HasOnlyValidProperties(data).Pass? && HasRequiredProperties(data).Pass? &&
             HasValidDate(data, clock).Pass? && HasValidTime(data).Fail?) ==>
      o == HasValidTime(data)
    ensures (HasOnlyValidProperties(data).Pass? && HasRequiredProperties(data).Pass? &&
             HasValidDate(data, clock).Pass? && HasValidTime(data).Pass? && HasValidPeople(data).Fail?) ==>
      o == HasValidPeople(data)
    ensures (HasOnlyValidProperties(data).Pass? && HasRequiredProperties(data).Pass? &&
             HasValidDate(data, clock).Pass? && HasValidTime(data).Pass? && HasValidPeople(data).Pass?) ==>
      o == HasValidStatus(data)
  {
    var a, b, c := HasOnlyValidProperties(data), HasRequiredProperties(data), HasValidDate(data, clock);
    var d, e, f := HasValidTime(data), HasValidPeople(data), HasValidStatus(data);
    RunSix(a, b, c, d, e, f);
    Run([a, b, c, d, e, f], Itself)
  }

  /** The guards of the update pipeline, in order; it has no status guard. */
  function ValidateUpdate(data: Option<Payload>, clock: Clock): (o: Outcome)
    ensures o.Pass? <==>
      HasOnlyValidUpdateProperties(data).Pass? && HasRequiredProperties(data).Pass? &&
      HasValidDate(data, clock).Pass? && HasValidTime(data).Pass? && HasValidPeople(data).Pass?
    ensures HasOnlyValidUpdateProperties(data).Fail? ==> o == HasOnlyValidUpdateProperties(data)
    ensures (HasOnlyValidUpdateProperties(data).Pass? && HasRequiredProperties(data).Fail?) ==>
      o == HasRequiredProperties(data)
    ensures (HasOnlyValidUpdateProperties(data).Pass? && HasRequiredProperties(data).Pass? &&
             HasValidDate(data, clock).Fail?) ==>
      o == HasValidDate(data, clock)
    ensures (HasOnlyValidUpdateProperties(data).Pass? && HasRequiredProperties(data).Pass? &&
             HasValidDate(data, clock).Pass? && HasValidTime(data).Fail?) ==>
      o == HasValidTime(data)
    ensures (HasOnlyValidUpdateProperties(data).Pass? && HasRequiredProperties(data).Pass? &&
             HasValidDate(data, clock).Pass? && HasValidTime(data).Pass?) ==>
      o == HasValidPeople(data)
  {
    var a, b, c := HasOnlyValidUpdateProperties(data), HasRequiredProperties(data), HasValidDate(data, clock);
    var d, e := HasValidTime(data), HasValidPeople(data);
    RunFive(a, b, c, d, e);
    Run([a, b, c, d, e], Itself)
  }

  /** The 404 response for a reservation id in the path. */
  function NotFound(id: nat): Failure {
    Rejected(404, "Reservation cannot be found: " + NatToString(id))
  }

  /** The existence guard and the read handler: the stored reservation, or 404. */
  function ReservationExists(rows: map<nat, Store.Reservation>, id: nat): (r: Result<Store.Reservation>)
    ensures r.Ok? <==> id in rows
    ensures r.Ok? ==> r.value == rows[id]
    ensures r.Err? ==> r.failure == NotFound(id)
  {
    match Store.Read(rows, id)
    case Some(row) => Ok(row)
    case None => Err(NotFound(id))
  }

  /**
   * The list handler: a truthy `mobile_number` query searches by phone number
   * (ordered by date), else a truthy `date` lists that day's schedule, else
   * every reservation (both ordered by time); each row once per id.
   */
  function ListHandler(rows: map<nat, Store.Reservation>, mobileNumber: Option<string>, date: Option<string>)
    : (out: seq<Store.Reservation>)
    ensures mobileNumber.Some? && mobileNumber.value != [] ==>
      Query.SortedBy(out, Store.DateKey) &&
      forall r :: multiset(out)[r] == if Store.MatchesPhone(r, mobileNumber.value) then |Query.IdsOf(rows, r)| else 0
    ensures (mobileNumber.None? || mobileNumber.value == []) && date.Some? && date.value != [] ==>
      Query.SortedBy(out, Store.TimeKey) &&
      forall r :: multiset(out)[r] ==
        if r.reservationDate == date.value && r.status != "finished" then |Query.IdsOf(rows, r)| else 0
    ensures (mobileNumber.None? || mobileNumber.value == []) && (date.None? || date.value == []) ==>
      Query.SortedBy(out, Store.TimeKey) && forall r :: multiset(out)[r] == |Query.IdsOf(rows, r)|
  {
    if mobileNumber.Some? && mobileNumber.value != [] then Store.Search(rows, mobileNumber.value)
    else if date.Some? && date.value != [] then Store.ListDate(rows, date.value)
    else Store.List(rows)
  }

  /** Every reservation the create pipeline lets through has these properties once stored. */
  predicate Bookable(row: Store.Reservation, clock: Clock) {
    IsStrictDate(row.reservationDate) &&
    clock.now <= MidnightUtc(row.reservationDate) &&
    LocalWeekday(MidnightUtc(row.reservationDate), clock.offset) != 2 &&
    IsStrictTime(row.reservationTime) && 630 <= MinutesOfDay(row.reservationTime) <= 1290 &&
    row.people != 0 &&
    row.status in {"booked", "", "0", "false"}
  }

  /**
   * A reservation stored by create is on a future non-Tuesday (in the server's
   * zone), at a strict time from 10:30 to 21:30, for a non-zero party, and
   * "booked", or the text of a falsy status: "", "0" or "false".
   */
  lemma CreatedIsBookable(data: Payload, clock: Clock, id: nat, stamp: string)
    requires ValidateCreate(Some(data), clock).Pass?
    ensures Store.FromPayload(id, data, stamp).Some? ==> Bookable(Store.FromPayload(id, data, stamp).value, clock)
  {
    if Store.FromPayload(id, data, stamp).Some? {
      GuardedIsBookable(data, clock, id, stamp);
    }
  }

  /** A zero status passes the status guard as falsy, and the store keeps its text "0". */
  lemma ZeroStatusStoredAsText(r: Store.Reservation)
    ensures HasValidStatus(Some([("status", JNum(0))])).Pass?
    ensures Store.SetColumn(r, "status", JNum(0)) == Some(r.(status := "0"))
  {
    assert Lookup([("status", JNum(0))], "status") == Some(JNum(0));
    assert JsString(JNum(0)) == "0";
  }

  lemma GuardedIsBookable(data: Payload, clock: Clock, id: nat, stamp: string)
    requires HasValidDate(Some(data), clock).Pass? && HasValidTime(Some(data)).Pass?
    requires HasValidPeople(Some(data)).Pass? && HasValidStatus(Some(data)).Pass?
    requires Store.FromPayload(id, data, stamp).Some?
    ensures Bookable(Store.FromPayload(id, data, stamp).value, clock)
  {
    StoredDateIsBookable(data, clock, id, stamp);
    StoredTimeIsBookable(data, id, stamp);
    StoredPartyIsBookable(data, id, stamp);
  }

  lemma StoredDateIsBookable(data: Payload, clock: Clock, id: nat, stamp: string)
    requires HasValidDate(Some(data), clock).Pass? && Store.FromPayload(id, data, stamp).Some?
    ensures var s := Store.FromPayload(id, data, stamp).value.reservationDate;
      IsStrictDate(s) && clock.now <= MidnightUtc(s) && LocalWeekday(MidnightUtc(s), clock.offset) != 2
  {
    var row := Store.FromPayload(id, data, stamp).value;
    StoredColumn(data, id, stamp, "reservation_date");
    PassingDate(Some(data), clock, row.reservationDate);
  }

  lemma StoredTimeIsBookable(data: Payload, id: nat, stamp: string)
    requires HasValidTime(Some(data)).Pass? && Store.FromPayload(id, data, stamp).Some?
    ensures var s := Store.FromPayload(id, data, stamp).value.reservationTime;
      IsStrictTime(s) && 630 <= MinutesOfDay(s) <= 1290
  {
    var row := Store.FromPayload(id, data, stamp).value;
    StoredColumn(data, id, stamp, "reservation_time");
    PassingTime(Some(data), row.reservationTime);
  }

  lemma StoredPartyIsBookable(data: Payload, id: nat, stamp: string)
    requires HasValidPeople(Some(data)).Pass? && HasValidStatus(Some(data)).Pass?
    requires Store.FromPayload(id, data, stamp).Some?
    ensures var row := Store.FromPayload(id, data, stamp).value;
      row.people != 0 && row.status in {"booked", "", "0", "false"}
  {
    StoredColumn(data, id, stamp, "people");
    if Lookup(data, "status").Some? {
      StoredColumn(data, id, stamp, "status");
    }
  }

  /** A column supplied on insert holds what the store makes of the supplied value. */
  lemma StoredColumn(data: Payload, id: nat, stamp: string, k: string)
    requires Store.FromPayload(id, data, stamp).Some?
    requires k in Store.Required || Lookup(data, k).Some?
    ensures Lookup(data, k).Some? &&
      Store.Column(Store.FromPayload(id, data, stamp).value, k) == Some(Store.Stored(k, Lookup(data, k).value))
  {
    if k in Store.Required {
      var i :| 0 <= i < |Store.Required| && Store.Required[i] == k;
    }
  }

  lemma PassingDate(data: Option<Payload>, clock: Clock, s: string)
    requires HasValidDate(data, clock).Pass? && Get(data, "reservation_date") == Some(JStr(s))
    ensures IsStrictDate(s) && clock.now <= MidnightUtc(s) && LocalWeekday(MidnightUtc(s), clock.offset) != 2
  {
    assert MomentText(Get(data, "reservation_date")) == s;
  }

  lemma PassingTime(data: Option<Payload>, s: string)
    requires HasValidTime(data).Pass? && Get(data, "reservation_time") == Some(JStr(s))
    ensures IsStrictTime(s) && 630 <= MinutesOfDay(s) <= 1290
  {
    assert MomentText(Get(data, "reservation_time")) == s;
  }

  /** Create refuses a truthy status other than "booked", whatever else the body holds. */
  lemma CreateRefusesOtherStatus(data: Payload, clock: Clock, v: Json)
    requires Truthy(Some(v)) && v != JStr("booked")
    ensures ValidateCreate(Some(Spread(data, "status", v)), clock).Fail?
  {
    assert HasValidStatus(Some(Spread(data, "status", v))).Fail?;
  }

  /**
   * Update has no status guard: a body the update pipeline accepts is still
   * accepted with any status value added or replaced.
   */
  lemma UpdateAcceptsAnyStatus(data: Payload, clock: Clock, v: Json)
    requires ValidateUpdate(Some(data), clock).Pass?
    ensures ValidateUpdate(Some(Spread(data, "status", v)), clock).Pass?
  {
    GuardsAcceptAnyStatus(data, clock, v);
  }

  lemma GuardsAcceptAnyStatus(data: Payload, clock: Clock, v: Json)
    requires HasOnlyValidUpdateProperties(Some(data)).Pass? && HasRequiredProperties(Some(data)).Pass?
    requires HasValidDate(Some(data), clock).Pass? && HasValidTime(Some(data)).Pass? && HasValidPeople(Some(data)).Pass?
    ensures var d' := Some(Spread(data, "status", v));
      HasOnlyValidUpdateProperties(d').Pass? && HasRequiredProperties(d').Pass? &&
      HasValidDate(d', clock).Pass? && HasValidTime(d').Pass? && HasValidPeople(d').Pass?
  {
    var d, d' := Some(data), Some(Spread(data, "status", v));
    SpreadKeepsWhitelist(data, v);
    SpreadKeepsRequired(data, v);
    SpreadKeepsFieldGuards(data, v, clock);
  }

  /** The date, time and people guards give the same outcome whatever status is set. */
  lemma SpreadKeepsFieldGuards(data: Payload, v: Json, clock: Clock)
    ensures var d, d' := Some(data), Some(Spread(data, "status", v));
      HasValidDate(d', clock) == HasValidDate(d, clock) && HasValidTime(d') == HasValidTime(d) &&
      HasValidPeople(d') == HasValidPeople(d)
  {
    var d, d' := Some(data), Some(Spread(data, "status", v));
    SpreadOther(data, "status", v, "reservation_date");
    SpreadOther(data, "status", v, "reservation_time");
    SpreadOther(data, "status", v, "people");
    SameDate(d, d', clock);
    SameTime(d, d');
    SamePeople(d, d');
  }

  lemma SpreadOther(data: Payload, k: string, v: Json, f: string)
    requires f != k
    ensures Get(Some(Spread(data, k, v)), f) == Get(Some(data), f)
  {
  }

  lemma SpreadKeepsWhitelist(data: Payload, v: Json)
    requires HasOnlyValidUpdateProperties(Some(data)).Pass?
    ensures HasOnlyValidUpdateProperties(Some(Spread(data, "status", v))).Pass?
  {
    var p := Spread(data, "status", v);
    forall i | 0 <= i < |p| ensures p[i].0 in UpdateFields {
      var k := p[i].0;
      if k != "status" {
        assert Lookup(p, k).Some?;
        var j :| 0 <= j < |data| && data[j].0 == k;
      }
    }
    assert Lookup(p, "status").Some?;
  }

  /** Setting `status` keeps every required field as it was. */
  lemma SpreadKeepsRequired(data: Payload, v: Json)
    requires HasRequiredProperties(Some(data)).Pass?
    ensures HasRequiredProperties(Some(Spread(data, "status", v))).Pass?
  {
    SpreadKeepsPresent(RequiredFields, data, "status", v);
  }

  /** Setting one member of a body removes none of the members it had. */
  lemma SpreadKeepsPresent(names: seq<string>, data: Payload, k: string, v: Json)
    requires HasProperties(names, Some(data)).Pass?
    ensures HasProperties(names, Some(Spread(data, k, v))).Pass?
  {
    var p := Spread(data, k, v);
    forall i | 0 <= i < |names| ensures Lookup(p, names[i]).Some? {
      if names[i] != k {
        assert Lookup(p, names[i]) == Lookup(data, names[i]);
      }
    }
  }

  /** The date, time and people guards each read their own field only. */
  lemma SameDate(d: Option<Payload>, d': Option<Payload>, clock: Clock)
    requires Get(d, "reservation_date") == Get(d', "reservation_date")
    ensures HasValidDate(d, clock) == HasValidDate(d', clock)
  {
  }

  lemma SameTime(d: Option<Payload>, d': Option<Payload>)
    requires Get(d, "reservation_time") == Get(d', "reservation_time")
    ensures HasValidTime(d) == HasValidTime(d')
  {
  }

  lemma SamePeople(d: Option<Payload>, d': Option<Payload>)
    requires Get(d, "people") == Get(d', "people")
    ensures HasValidPeople(d) == HasValidPeople(d')
  {
  }

  /**
   * The status guard: the target "unknown" is refused, then a reservation
   * that is already finished.
   */
  function CheckStatus(current: string, target: Option<Json>): (o: Outcome)
    ensures o.Pass? <==> target != Some(JStr("unknown")) && current != "finished"
    ensures target == Some(JStr("unknown")) ==> o == Fail(Rejected(400, "Invalid status: unknown"))
    ensures target != Some(JStr("unknown")) && current == "finished" ==>
      o == Fail(Rejected(400, "Invalid status: finished"))
  {
    if target == Some(JStr("unknown")) then Fail(Rejected(400, "Invalid status: unknown"))
    else if current == "finished" then Fail(Rejected(400, "Invalid status: finished"))
    else Pass
  }

  /**
   * The status-update pipeline's decision: the status text written, or the
   * failure. Any value but "unknown" may be written to a reservation that is
   * not finished: a string as it is, a number or boolean as its text; any
   * other value, or none, makes the write throw.
   */
  function StatusChange(rows: map<nat, Store.Reservation>, id: nat, data: Option<Payload>): (r: Result<string>)
    ensures id !in rows ==> r == Err(NotFound(id))
    ensures var v := Get(data, "status");
      r.Ok? <==>
        id in rows && rows[id].status != "finished" &&
        v.Some? && (v.value.JStr? || v.value.JNum? || v.value.JBool?) && v.value != JStr("unknown")
    ensures r.Ok? ==> r.value == JsString(Get(data, "status").value)
    ensures id in rows && rows[id].status == "finished" ==> r.Err? && r.failure.Rejected? && r.failure.status == 400
    ensures id in rows && CheckStatus(rows[id].status, Get(data, "status")).Fail? ==>
      r == Err(CheckStatus(rows[id].status, Get(data, "status")).failure)
    ensures var v := Get(data, "status");
      id in rows && CheckStatus(rows[id].status, v).Pass? && !(v.Some? && (v.value.JStr? || v.value.JNum? || v.value.JBool?)) ==>
        r == Err(Thrown)
  {
    match ReservationExists(rows, id)
    case Err(f) => Err(f)
    case Ok(row) =>
      var target := Get(data, "status");
      match CheckStatus(row.status, target)
      case Fail(f) => Err(f)
      case Pass =>
        if target.Some? && (target.value.JStr? || target.value.JNum? || target.value.JBool?) then
          Ok(JsString(target.value))
        else Err(Thrown)
  }

  /** The create pipeline: the guards, then the insert. */
  method Create(store: Store.ReservationsTable, data: Option<Payload>, clock: Clock, stamp: string)
    returns (r: Result<Store.Reservation>)
    requires store.Valid()
    modifies store
    ensures store.Valid()
    ensures ValidateCreate(data, clock).Fail? ==>
      r == Err(ValidateCreate(data, clock).failure) && store.rows == old(store.rows) && store.nextId == old(store.nextId)
    ensures ValidateCreate(data, clock).Pass? ==>
      data.Some? &&
      match Store.FromPayload(old(store.nextId), data.value, stamp)
      case None => r == Err(Thrown) && store.rows == old(store.rows)
      case Some(row) =>
        r == Ok(row) && store.rows == old(store.rows)[row.reservationId := row] && Bookable(row, clock)
  {
    var o := ValidateCreate(data, clock);
    if o.Fail? {
      return Err(o.failure);
    }
    assert data.Some?;
    ghost var row := Store.FromPayload(store.nextId, data.value, stamp);
    if row.Some? {
      CreatedIsBookable(data.value, clock, store.nextId, stamp);
    }
    r := store.Create(data.value, stamp);
  }

  /**
   * The update pipeline's decision: 404 for an unknown reservation, then the
   * guards, then the body with `reservation_id` set to the one in the path.
   */
  function UpdateDecision(rows: map<nat, Store.Reservation>, id: nat, data: Option<Payload>, clock: Clock)
    : (r: Result<Payload>)
    ensures id !in rows ==> r == Err(NotFound(id))
    ensures id in rows ==> (r.Ok? <==> ValidateUpdate(data, clock).Pass?)
    ensures id in rows && r.Err? ==> r.failure == ValidateUpdate(data, clock).failure
    ensures r.Ok? ==> data.Some? && Lookup(r.value, "reservation_id") == Some(JNum(id))
    ensures r.Ok? ==> forall k :: k != "reservation_id" ==> Lookup(r.value, k) == Lookup(data.value, k)
  {
    if id !in rows then Err(NotFound(id))
    else
      var o := ValidateUpdate(data, clock);
      if o.Fail? then Err(o.failure)
      else Ok(Spread(data.value, "reservation_id", JNum(id)))
  }

  /**
   * The update pipeline: on success the reservation in the path, and only
   * it, has every supplied column overwritten and its id kept.
   */
  method Update(store: Store.ReservationsTable, id: nat, data: Option<Payload>, clock: Clock)
    returns (r: Result<Store.Reservation>)
    requires store.Valid()
    modifies store
    ensures store.Valid() && store.nextId == old(store.nextId)
    ensures UpdateDecision(old(store.rows), id, data, clock).Err? ==>
      r == Err(UpdateDecision(old(store.rows), id, data, clock).failure) && store.rows == old(store.rows)
    ensures UpdateDecision(old(store.rows), id, data, clock).Ok? ==>
      var patch := UpdateDecision(old(store.rows), id, data, clock).value;
      match Store.ApplyPatch(old(store.rows)[id], patch)
      case None => r == Err(Thrown) && store.rows == old(store.rows)
      case Some(row) => r == Ok(row) && row.reservationId == id && store.rows == old(store.rows)[id := row]
  {
    var decision := UpdateDecision(store.rows, id, data, clock);
    if decision.Err? {
      return Err(decision.failure);
    }
    var patch := decision.value;
    assert id in store.rows && Lookup(patch, "reservation_id") == Some(JNum(id));
    Query.RowKeyOfNumberText(id);
    var updated := store.Update(patch);
    match updated
    case Err(f) => r := Err(f);
    case Ok(None) => r := Err(Thrown);
    case Ok(Some(row)) => r := Ok(row);
  }

  /** The status-update pipeline: only the status of that reservation changes. */
  method UpdateStatus(store: Store.ReservationsTable, id: nat, data: Option<Payload>)
    returns (r: Result<Store.Reservation>)
    requires store.Valid()
    modifies store
    ensures store.Valid() && store.nextId == old(store.nextId)
    ensures StatusChange(old(store.rows), id, data).Err? ==>
      r == Err(StatusChange(old(store.rows), id, data).failure) && store.rows == old(store.rows)
    ensures StatusChange(old(store.rows), id, data).Ok? ==>
      var s := StatusChange(old(store.rows), id, data).value;
      store.rows == old(store.rows)[id := old(store.rows)[id].(status := s)] && r == Ok(store.rows[id])
  {
    var change := StatusChange(store.rows, id, data);
    if change.Err? {
      return Err(change.failure);
    }
    store.UpdateStatus(id, change.value);
    r := Ok(store.rows[id]);
  }
}
