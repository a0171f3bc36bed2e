# Restaurant reservations back end, modelled in Dafny

This project models the request handling of a restaurant reservation
service. Two Express controllers sit in front of a PostgreSQL store:

- **Reservations.** The controller validates a reservation body through an
  ordered chain of guards (field whitelist, required fields, date, time,
  party size, status). It lists, reads, creates and updates reservations,
  and changes their status.
- **Tables.** The controller validates new tables, seats a reservation at a
  table and finishes a seated reservation.
- **Store.** The two services are knex queries over the `reservations` and
  `tables` tables.

The modules:

- `Js` (js.dfy): the JavaScript value semantics the guards depend on. It covers
  JSON values, `undefined`, truthiness, `.length`, string `<`, `String(v)`,
  object spread and `Object.keys`.
- `Middleware` (middleware.dfy): the pipeline itself. The guards run in
  order and the first `next(error)` is the response. This module also holds
  the required-properties guard and the invalid-field filter.
- `Query` (query.dfy): what a query returns, stated over an in-memory table.
  It covers a table scan, `WHERE`, an `ORDER BY` on a text column
  under JavaScript string order, `LIKE '%p%'`, and what `WHERE id = v`
  makes of a JSON value.
- `DateTime` (datetime.dfy): the strict `YYYY-MM-DD` and `HH:mm` formats, the
  day number of a civil date, and `getDay()` for a server whose time zone is
  a fixed offset from UTC.
- `ReservationsService` and `TablesService`: each table is a class. It holds
  a map of rows by id and the next value of the id serial, and its methods
  are the writes. The reads are functions over the row map.
- `ReservationsController` and `TablesController`: every guard is a function
  from the request body to `Pass | Fail(failure)`. Each exported pipeline is
  the short-circuit run of its guards. Each handler is a method over the
  store objects, specified by a decision function.

The current instant, the server's time-zone offset and the fallback
`new Date(text)` parser are parameters (`Clock`). The time stamps the store
writes are a parameter too.

What the code does where it departs from the design is modelled as written
and stated as lemmas:

- Seating never looks at the table's current occupant
  (`SeatIgnoresOccupancy`). A second party can be seated at an occupied
  table (`SecondSeatAtSameTable`), and that strands the first party
  (`SeatStrandsOccupant`).
- Finishing never clears the table's `reservation_id`. It does not check
  which table was named either (`FinishIgnoresTable`). A finished
  reservation can be seated again (`FinishKeepsTableOccupied`).
- The update pipeline has no status guard, so an update can write any status
  (`UpdateAcceptsAnyStatus`). Create refuses every truthy status but
  "booked" (`CreateRefusesOtherStatus`). A falsy status passes; the store
  keeps its text, so "", "0" and "false" can be stored (`CreatedIsBookable`,
  `ZeroStatusStoredAsText`).
- A status change may write any string, number or boolean but "unknown";
  a number or boolean is stored as its text.
- The name-length guard looks at the value sent, not the text stored: a
  number has no `length`, so `{table_name: 5}` passes and creates a table
  named "5" (`NumberNameStoredAsText`).
- Negative party sizes and capacities, and an empty table name, pass the
  guards (`EmptyNameAndNegativeCapacityAccepted`).
- The Tuesday guard uses the server's local weekday of the date's UTC
  midnight:
  - in UTC it closes calendar Tuesdays (`TuesdayGuardInUtc`);
  - west of UTC it closes calendar Wednesdays instead
    (`TuesdayGuardWestOfUtc`).
- A reservation for today is refused once UTC midnight has passed.

## Model

| member | source | states |
|---|---|---|
| Js.Spread | back-end/src/reservations/reservations.controller.js:218-221 | `{ ...data, k: v }` gives k the value v and leaves every other key's value as it was |
| Middleware.Run | back-end/src/reservations/reservations.controller.js:230-257 | a pipeline passes iff every guard passes; otherwise it reports the failure of the first guard that fails, all earlier guards having passed |
| Middleware.HasProperties | back-end/src/reservations/reservations.controller.js:109-116 | the required-properties guard passes iff every named key is present, and otherwise reports the first missing key in the order given |
| Middleware.InvalidFields | back-end/src/reservations/reservations.controller.js:56-75 | the keys kept by the whitelist filter are exactly the body's keys outside the allowed list |
| Middleware.InvalidFieldsCount | back-end/src/reservations/reservations.controller.js:56-75 | each key outside the allowed list is reported exactly as often as the body lists it, and no allowed key is reported |
| Middleware.InvalidFieldsConcat | back-end/src/reservations/reservations.controller.js:56-75 | the report keeps the body's key order: filtering a concatenation concatenates the filtered parts |
| Middleware.InvalidFieldsOnce | back-end/src/reservations/reservations.controller.js:56-75 | keys listed once, as `Object.keys` lists them, are each named once in the joined message |
| Middleware.CountCheck | back-end/src/reservations/reservations.controller.js:156-165 | `v.length \|\| v === 0` refuses: a number passes iff non-zero, a string or array iff empty, a boolean always; null or undefined throws |
| Query.RowKey | back-end/src/reservations/reservations.service.js:15-20 | `WHERE id = v` names id n for a non-negative number n or for digits-only text spelling n, no row for a negative number or null, and raises an error for anything else |
| Query.RowKeyOfNumberText | back-end/src/reservations/reservations.service.js:15-20 | the decimal text of an id names the same row as the id itself |
| Query.Scan | back-end/src/reservations/reservations.service.js:3-5 | a table scan has one entry per id: each row occurs exactly as often as there are ids holding it |
| Query.SortBy | back-end/src/reservations/reservations.service.js:3-5 | ORDER BY returns a permutation of its input in non-decreasing key order |
| Query.Filter | back-end/src/reservations/reservations.service.js:6-14 | WHERE keeps a row iff it occurs in the input and satisfies the condition, and never adds rows |
| Query.FilterCount | back-end/src/reservations/reservations.service.js:6-14 | WHERE keeps every satisfying row exactly as often as it occurs, and no other row |
| Query.FilterConcat | back-end/src/reservations/reservations.service.js:6-14 | WHERE keeps scan order: filtering a concatenation is the concatenation of the filtered parts |
| Query.Select | back-end/src/reservations/reservations.service.js:6-14 | WHERE then ORDER BY returns each satisfying row once per id holding it, no other row, in non-decreasing key order |
| Query.Contains | back-end/src/reservations/reservations.service.js:48-55 | `LIKE '%p%'` holds iff p occurs at some position of the text |
| DateTime.TimeStringOrder | back-end/src/reservations/reservations.controller.js:140-155 | for strict `HH:mm` times, string order is the order of minutes since midnight |
| DateTime.WeekdayWestOfUtc | back-end/src/reservations/reservations.controller.js:126-131 | west of UTC, `getDay()` of a date's UTC midnight is the weekday of the day before |
| ReservationsService.SetColumn | back-end/src/reservations/reservations.service.js:21-27 | writing one column succeeds iff the value fits that column; the column then holds what the store makes of the value (the text of a number or boolean in a text column) and every other column is unchanged |
| ReservationsService.ApplyPatch | back-end/src/reservations/reservations.service.js:21-27 | an UPDATE succeeds iff every supplied value fits; each supplied column then holds the stored form of its value, the others keep theirs, and the id is kept |
| ReservationsService.FromPayload | back-end/src/reservations/reservations.service.js:28-33 | an INSERT succeeds iff every required column is supplied and every value fits; the row holds the stored form of each supplied value, and the status defaults to "booked" |
| ReservationsService.ReservationsTable.Create | back-end/src/reservations/reservations.service.js:28-33 | create adds exactly one row under the next serial id and returns it, or changes nothing when the insert fails |
| ReservationsService.ReservationsTable.Update | back-end/src/reservations/reservations.service.js:21-27 | update overwrites the supplied columns of the row named by the body's `reservation_id`, changes no other row and returns the updated row; an id the database cannot compare throws, one naming no row changes nothing |
| ReservationsService.ReservationsTable.UpdateStatus | back-end/src/reservations/reservations.service.js:45-47 | updateStatus changes only the status of that one row |
| ReservationsService.ReservationsTable.Destroy | back-end/src/reservations/reservations.service.js:34-36 | destroy removes that row and no other |
| ReservationsService.List | back-end/src/reservations/reservations.service.js:3-5 | list returns every reservation once per id holding it, in non-decreasing reservation time |
| ReservationsService.ListDate | back-end/src/reservations/reservations.service.js:6-14 | listDate returns each reservation on that date that is not finished once per id holding it, and no other, in non-decreasing time |
| ReservationsService.OnceEach | back-end/src/reservations/reservations.service.js:3-5 | in a table where every row carries its own id, no row is held by two ids, so no query lists a row twice |
| ReservationsService.Read | back-end/src/reservations/reservations.service.js:15-20 | read returns the row with that id, or nothing iff there is none |
| ReservationsService.CheckStatus | back-end/src/reservations/reservations.service.js:38-43 | checkStatus returns that row's status, or nothing iff there is no row |
| ReservationsService.StripPunctuation | back-end/src/reservations/reservations.service.js:51 | `translate(n, '() -', '')` never lengthens the number |
| ReservationsService.StripPunctuationCount | back-end/src/reservations/reservations.service.js:51 | stripping keeps every character that is not a parenthesis, space or dash exactly as often as it occurs, and drops those four |
| ReservationsService.StripPunctuationConcat | back-end/src/reservations/reservations.service.js:51 | stripping keeps order: stripping a concatenation concatenates the stripped parts |
| ReservationsService.DigitsOnly | back-end/src/reservations/reservations.service.js:52 | `replace(/\D/g, '')` returns only digits and never lengthens the query |
| ReservationsService.DigitsOnlyCount | back-end/src/reservations/reservations.service.js:52 | every digit is kept exactly as often as it occurs, and nothing else |
| ReservationsService.DigitsOnlyConcat | back-end/src/reservations/reservations.service.js:52 | keeping the digits keeps their order: it distributes over concatenation |
| ReservationsService.Search | back-end/src/reservations/reservations.service.js:48-55 | search returns each row whose stripped number contains the query's digits once per id holding it, and no other, in non-decreasing date |
| ReservationsService.StripKeepsDigits | back-end/src/reservations/reservations.service.js:48-55 | for a number made of digits and the four punctuation characters, stripping leaves exactly its digits |
| ReservationsService.MatchIsDigitwise | back-end/src/reservations/reservations.service.js:48-55 | such a number matches iff its digits contain the query's digits |
| ReservationsService.DigitlessQueryMatchesAll | back-end/src/reservations/reservations.service.js:48-55 | a query without digits matches every reservation |
| TablesService.FromPayload | back-end/src/tables/tables.service.js:11-16 | a table INSERT succeeds iff name and capacity are supplied and every value fits; the name is stored as the text of the value sent, the capacity as sent, and the table is free unless an id is supplied |
| TablesService.TablesTable.Create | back-end/src/tables/tables.service.js:11-16 | create adds exactly one table under the next serial id and returns it |
| TablesService.TablesTable.UpdateTable | back-end/src/tables/tables.service.js:24-30 | updateTable sets `reservation_id` of that table only and returns the updated row |
| TablesService.TablesTable.Destroy | back-end/src/tables/tables.service.js:36-38 | destroy removes that table and no other |
| TablesService.List | back-end/src/tables/tables.service.js:3-5 | list returns every table once per id holding it, in non-decreasing table name |
| TablesService.Read | back-end/src/tables/tables.service.js:7-9 | read returns the table with that id, or nothing iff there is none |
| TablesService.Update | back-end/src/tables/tables.service.js:18-23 | update writes nothing: it returns the stored row with the given table's id |
| TablesService.ReservationStatus | back-end/src/tables/tables.service.js:32-34 | reservationStatus returns that table's `reservation_id`, or nothing iff there is no table |
| ReservationsController.OnlyFields | back-end/src/reservations/reservations.controller.js:56-75 | the whitelist passes iff the body is present, non-empty and has only allowed keys; an absent or empty body gives "data is missing", otherwise the message lists the invalid keys |
| ReservationsController.HasValidDate | back-end/src/reservations/reservations.controller.js:117-139 | the date passes iff it is strict `YYYY-MM-DD`, its instant is not before now, and its local weekday is not Tuesday; a past instant gives the future message, then a Tuesday gives the Tuesday message, and only then a bad format gives the format message |
| ReservationsController.TuesdayGuardInUtc | back-end/src/reservations/reservations.controller.js:126-131 | with the server in UTC, a future strict date passes iff it is not a calendar Tuesday |
| ReservationsController.TuesdayGuardWestOfUtc | back-end/src/reservations/reservations.controller.js:126-131 | west of UTC, a future strict date passes iff it is not a calendar Wednesday |
| ReservationsController.StrictTimeIsText | back-end/src/reservations/reservations.controller.js:140-155 | only text can be a strict time, and for it the string bounds '10:30' and '21:30' are the clock bounds 630 and 1290 minutes |
| ReservationsController.HasValidTime | back-end/src/reservations/reservations.controller.js:140-155 | the time passes iff it is strict `HH:mm` from 10:30 to 21:30 inclusive; any compared text outside the window by string order, and any strict time outside it, gives the window message before the format is checked |
| ReservationsController.HasValidPeople | back-end/src/reservations/reservations.controller.js:156-165 | people is refused iff it is 0 or has a truthy length; null or absent throws; everything else passes |
| ReservationsController.HasValidStatus | back-end/src/reservations/reservations.controller.js:167-176 | the status passes iff it is falsy or "booked"; the message quotes the value |
| ReservationsController.ValidateCreate | back-end/src/reservations/reservations.controller.js:233-241 | create passes iff all six guards pass, and reports the first failure in the listed order |
| ReservationsController.ValidateUpdate | back-end/src/reservations/reservations.controller.js:242-251 | update passes iff its five guards pass, and reports the first failure in order; there is no status guard |
| ReservationsController.ReservationExists | back-end/src/reservations/reservations.controller.js:33-44 | the existence guard passes with the stored row iff the id exists, and otherwise gives 404 |
| ReservationsController.ListHandler | back-end/src/reservations/reservations.controller.js:8-31 | a truthy mobile number gives the search in date order, else a truthy date gives that day's schedule in time order, else every reservation in time order; each row once per id holding it |
| ReservationsController.CreatedIsBookable | back-end/src/reservations/reservations.controller.js:233-241 | every row stored by create has a future non-Tuesday strict date, a strict time within the window, a non-zero party, and status "booked" or the text of a falsy status ("", "0", "false") |
| ReservationsController.ZeroStatusStoredAsText | back-end/src/reservations/reservations.controller.js:167-176 | a zero status passes the create status guard and is stored as the text "0" |
| ReservationsController.CreateRefusesOtherStatus | back-end/src/reservations/reservations.controller.js:167-176 | any body with a truthy status other than "booked" is refused by create |
| ReservationsController.UpdateAcceptsAnyStatus | back-end/src/reservations/reservations.controller.js:242-251 | a body update accepts is still accepted with any status value set |
| ReservationsController.SpreadKeepsWhitelist | back-end/src/reservations/reservations.controller.js:76-107 | setting `status` keeps a body inside the update whitelist |
| ReservationsController.CheckStatus | back-end/src/reservations/reservations.controller.js:191-208 | the status guard passes iff the target is not "unknown" and the current status is not "finished"; "unknown" is reported first |
| ReservationsController.StatusChange | back-end/src/reservations/reservations.controller.js:252-256 | an unknown id gives 404; then the target "unknown" gives 400 "Invalid status: unknown" and a finished reservation 400 "Invalid status: finished"; otherwise the write succeeds iff the target is a string, number or boolean, and its text is written, and any other target throws |
| ReservationsController.Create | back-end/src/reservations/reservations.controller.js:177-185 | a refused body changes nothing; an accepted one adds exactly the inserted row, and that row is bookable |
| ReservationsController.UpdateDecision | back-end/src/reservations/reservations.controller.js:217-228 | unknown id gives 404, then the update guards; the written body is the request body with `reservation_id` set to the path id |
| ReservationsController.Update | back-end/src/reservations/reservations.controller.js:217-228 | on success only that reservation changes: the supplied columns are overwritten and the id is kept |
| ReservationsController.UpdateStatus | back-end/src/reservations/reservations.controller.js:209-215 | on success only the status of that reservation changes, to the requested one |
| TablesController.HasData | back-end/src/tables/tables.controller.js:71-84 | the guard passes iff the body carries `data` |
| TablesController.HasOnlyValidProperties | back-end/src/tables/tables.controller.js:30-44 | the whitelist passes iff every key is `table_name` or `capacity`; an absent body passes |
| TablesController.HasValidCapacity | back-end/src/tables/tables.controller.js:48-57 | capacity is refused iff it is 0 or has a truthy length; null or absent throws |
| TablesController.HasValidLength | back-end/src/tables/tables.controller.js:58-69 | the name passes iff present, not null, and its length is not exactly 1 |
| TablesController.ValidateTable | back-end/src/tables/tables.controller.js:166-173 | table creation passes iff all five guards pass, and reports the first failure in order |
| TablesController.CreatedTableIsFree | back-end/src/tables/tables.controller.js:85-89 | a table stored by create has a non-zero capacity and no reservation, and a name sent as a string does not have length 1 |
| TablesController.NumberNameStoredAsText | back-end/src/tables/tables.controller.js:58-69 | the body `{table_name: 5, capacity: 4}` passes every create guard and is stored as a table named "5" |
| TablesController.EmptyNameAndNegativeCapacityAccepted | back-end/src/tables/tables.controller.js:48-69 | an empty name with any negative capacity passes every create guard and is stored as given |
| TablesController.Create | back-end/src/tables/tables.controller.js:85-89 | a refused body changes nothing; an accepted one adds exactly the inserted table, which is free |
| TablesController.ReadHandlerAsWritten | back-end/src/tables/tables.controller.js:24-27 | the read handler fails for every id: 404 iff the table is absent, otherwise it throws |
| TablesController.ReadHandler | back-end/src/tables/tables.controller.js:11-27 | the intended read returns the stored table iff it exists, and 404 otherwise |
| TablesController.ReadFindingWitness | back-end/src/tables/tables.controller.js:24-27 | for every existing table the handler as written throws where the intended one answers |
| TablesController.SeatDecision | back-end/src/tables/tables.controller.js:174-182 | failures come in pipeline order with their messages: no data 400, no id, an id the database cannot compare throws, no such reservation 404 quoting the id, no such table 404, capacity below the party 400, already seated 400; otherwise the named reservation is seated |
| TablesController.Seat | back-end/src/tables/tables.controller.js:126-134 | a refused seat changes nothing; a successful one sets only that table's reservation and only that reservation's status to "seated" |
| TablesController.SeatIgnoresOccupancy | back-end/src/tables/tables.controller.js:114-125 | the seat decision is the same whatever reservation the table already holds |
| TablesController.SeatKeepsCapacity | back-end/src/tables/tables.controller.js:103-113 | if every table's party fits before a seat, it still does after |
| TablesController.SeatStrandsOccupant | back-end/src/tables/tables.controller.js:126-134 | seating over an occupant leaves that occupant at no table, with its status unchanged |
| TablesController.SecondSeatAtSameTable | back-end/src/tables/tables.controller.js:114-125 | after one party is seated at a table, another can still be seated there |
| TablesController.FinishDecision | back-end/src/tables/tables.controller.js:183-187 | an unknown table gives 404; then a missing body, id or reservation, or an id the database cannot compare, throws; a seated reservation is finished and any other gives 400 "table is not occupied or seated" |
| TablesController.FinishIgnoresTable | back-end/src/tables/tables.controller.js:136-151 | any two existing tables give the same finish decision |
| TablesController.Finish | back-end/src/tables/tables.controller.js:153-162 | a successful finish sets only that reservation's status to "finished"; no table changes |
| TablesController.FinishKeepsTableOccupied | back-end/src/tables/tables.controller.js:153-162 | after a finish the table still holds the reservation, which can be seated again at any table large enough |

## Left out

- The required-properties helper is not part of this model. It is assumed to
  pass iff every named key is present, and to report the first missing one.
- The async error boundary is not part of this model. It is assumed to turn a
  thrown error into an error response, modelled as `Thrown`.
- A request body whose `data` is not an object is not modelled. `data` is
  either absent or an object.
- Query.RowKey: text names an id only when it is all digits. Text with a
  sign or surrounding spaces, which Postgres also reads as an integer, is
  modelled as an error. Ids beyond the 32-bit integer range are not
  modelled. Path ids are natural numbers.
- ReservationsService.Fits: an array or object sent for a text column is
  refused. The driver would send its array literal or JSON text, and
  Postgres would store that text.
- ReservationsService.Fits: the date, time and time-stamp columns take only
  strings. Postgres would also parse other spellings, such as the number
  20261230 as a date. The create and update guards let only strict strings
  through to the date and time columns.
- ReservationsService.Fits: the time-stamp columns `created_at` and
  `updated_at` take any string. The update whitelist admits them and no
  guard checks them, so an update writing "hello" there is stored here,
  although Postgres would refuse text it cannot parse as a time stamp.
- TablesService.Fits: an array or object sent as `table_name` is refused,
  where Postgres would store its text.
- The migrations are not part of this model. The status default "booked"
  and the time stamps are assumed.
- ReservationsService.FromPayload: every reservation column is treated as
  NOT NULL. A null value in any supplied column makes the insert fail, and
  the six required columns must be supplied.
- ReservationsService.ListDate: `reservation_date` is compared as stored
  text. In Postgres it is a date column, so a query date in another
  spelling of the same day (`20261230`) would match there and matches
  nothing here.
- Time-of-day columns are modelled as the stored text, not as a database
  time type.
- Query.Scan: the order of the scan is not stated. Postgres promises none,
  and every query here sorts its result.
- Query.SortBy: the order of rows with equal keys is not stated. ORDER BY
  uses JavaScript string order; the database's collation is not modelled.
- The server's time zone is a fixed offset. Daylight-saving changes are not
  modelled.
- JSON numbers are integers. Fractions, the 2^53 limit and the range limit
  of `new Date(number)` are left out.
- String length counts characters, not UTF-16 code units.
- `Object.keys` lists members in body order. JavaScript's rule that puts
  integer-like keys first is not modelled.
- The list handler's reformatting of dates for output is left out, along
  with the rest of HTTP: status codes other than those carried in errors,
  `res.json`, headers. Query parameters are modelled as strings, not arrays.
- Concurrency is left out. The two writes of a seat are modelled as
  consecutive steps of one request.
- The server bootstrap and the database seeds are not part of this model.
- ReservationsController.HasValidDate: `new Date(text)` for text that is not
  a strict date is the `Clock.parse` parameter, not a model of the
  JavaScript date parser.
- TablesController.FinishDecision: a missing reservation, body or id is
  modelled as a thrown error. The exact error the database driver raises is
  not modelled.

## Findings

| source | as written | input that shows it | evidently intended | confidence | as-written member | corrected member |
|---|---|---|---|---|---|---|
| back-end/src/tables/tables.controller.js:24-27 | the read handler reads the table from `req.locals`, which is undefined, so it throws | GET of any existing table id | answer with the table that the existence guard stored in `res.locals` | high, not executed | TablesController.ReadHandlerAsWritten | TablesController.ReadHandler |
