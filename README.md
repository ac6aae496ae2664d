# Bus seat booking: a verified model

This project models the core of a small bus-ticketing web application in Dafny.

- A REST server keeps three SQLite tables: `users`, `routes` and `bookings`.
- At start-up it seeds an admin account and a seven-day timetable.
- A React client draws a 40-seat map, lets an administrator move bookings and cancel routes, and lets travellers search routes by date, origin and destination.

The model is organised as follows:

- `schema.dfy` (module `Schema`) holds the rows of the three tables and the two UNIQUE constraints as predicates:
  - usernames are unique;
  - on every route, no two bookings share a seat number.

  It also holds the lemmas that connect each constraint check with the invariant it protects.
- `store.dfy` (module `Store`) holds the server as a class `BookingService`:
  - its fields are the three tables, as maps from id to row, and the AUTOINCREMENT counters;
  - every HTTP handler is a method that runs its one SQL statement as one atomic step;
  - the handlers that can fail answer with an `Outcome`: `Ok` (carrying `lastID` or `changes`), `Conflict` (409), `NotFound` (404), `Unauthorized` (401) or `BadRequest` (400). The read handlers (`GetRoute`, `ListRoutes`, `BookedSeats`, `ListBookings`) and the status update (`SetRouteStatus`) return their data, or the row count, directly;
  - every method keeps `Valid()`. That means ids are positive and below their counter, rows are stored under their own id, and both UNIQUE constraints hold.

  The three SELECTs that return lists are modelled as recursive functions over the rowid range, with lemmas for their contents:
  - `ORDER BY date, departure_time` for routes;
  - the seat projection;
  - the JOIN `ORDER BY booking_date DESC` for bookings.
- `seed.dfy` (module `Seed`) holds `initDb`:
  - the admin seed;
  - the nested loop, 7 days × 5 patterns, that inserts routes one at a time through `InsertRoute`;
  - what happens when the server is started again over the same database file.
- `seat_layout.dfy`, `admin_page.dfy` and `home.dfy` hold the client's pure logic:
  - the seat map and its status priority;
  - the click guard;
  - the aisle arithmetic;
  - the admin availability filter and the seat-selector fallback;
  - the status toggle and its optimistic update;
  - the route search;
  - the booking button of a cancelled route.
- `text.dfy` (module `Text`) holds the string operations these rely on:
  - the code-point order SQLite uses for `ORDER BY` on TEXT;
  - ASCII case folding;
  - substring search.

Modelling choices:

- An absent request field (`undefined`/`null`) is `None`.
- A NOT NULL column that receives one makes the handler answer `BadRequest`. This is the non-UNIQUE error branch of the handler.
- The route `status` is the one nullable column a handler writes (`Option<string>`). Its default is `scheduled`. `bookings.booking_date` is nullable too, but no handler writes it: its `CURRENT_TIMESTAMP` default always fills it, so it is a plain `int`.
- The clock is an input:
  - `now` is the `CURRENT_TIMESTAMP` of an insert;
  - `days` is the seven date strings starting today.
- SQL leaves some orders unspecified: the seat list, and rows that tie in `ORDER BY`. There the model lists rows in ascending rowid order. `ListRoutes` proves that routes with the same date and departure time come out by ascending id (`TiesById`); the seeded timetable has such a tie every day, at 08:00. `ListBookings` proves the same for bookings made at the same time (`SameTimeById`). SQLite itself promises no particular order for ties.

Two comments in the repository disagree with its code. The model follows the code in both cases:

- A comment in `client/src/pages/AdminPage.jsx` (lines 50-61) says `GET /api/bookings` does not return `route_id`. The query does select `bookings.route_id` (server/server.js:146), so `BookingView` carries it.
- The comment at server/database.js:68 says the server ensures routes "for the next 7 days". The code seeds only when today has no route at all. A restart on day 3 of a seeded week therefore adds nothing, and routes exist only up to day 6 (`Seed.SeedRoutes`, `Seed.Restart`).

## Model

| member | source | states |
|---|---|---|
| Schema.UserInsertKeepsUnique | server/database.js:54 | inserting a user at a fresh id keeps usernames unique if and only if no stored user already has that username |
| Schema.SingleHolder | server/database.js:54 | under unique usernames a username in use belongs to exactly one row |
| Schema.SeatHeldOnce | server/database.js:48 | under UNIQUE(route_id, seat_number) no other booking holds the seat of a stored booking on its route |
| Schema.SeatTaken | server/database.js:48 | the UNIQUE(route_id, seat_number) test of a write at one key: another row already holds that pair |
| Schema.SeatWriteKeepsDistinct | server/database.js:48 | writing a booking row (insert or update) keeps seats distinct per route if and only if no other row holds that (route, seat) pair |
| Schema.SeatTakenIffBooked | server/database.js:40-49 | for a new row, the UNIQUE check fails exactly when the seat is already among the route's booked seats |
| Schema.SeatsOnAfterWrite | server/server.js:126-138 | after writing a row, a route's booked seats are those of the other rows plus the row's seat, on its own route only |
| Schema.SeatsOnAfterDelete | server/server.js:240-253 | deleting a booking frees exactly its own seat on its own route and no other seat anywhere |
| Schema.WithStatus | server/server.js:112 | the status UPDATE keeps the set of ids, sets the status of the matching row, and leaves every other row unchanged |
| Text.StrLe | server/server.js:63 | the code-point order of TEXT: a prefix sorts first, and a string is never before a proper prefix of itself |
| Text.ToLower | client/src/pages/Home.jsx:33-34 | lower-casing keeps the length, leaves no ASCII capital, turns each capital into its own small letter (code point + 32) and keeps every other character |
| Text.Contains | client/src/pages/Home.jsx:33-34 | a string includes each of its prefixes, and never a longer string |
| Text.StrLeTotal | server/server.js:63 | any two TEXT values are comparable under ORDER BY |
| Text.StrLeAntisymmetric | server/server.js:63 | two strings that are each at most the other are equal |
| Text.StrLeTransitive | server/server.js:63 | the ORDER BY string order is transitive |
| Text.ToLowerIdempotent | client/src/pages/Home.jsx:33-34 | lower-casing twice is lower-casing once |
| Text.ContainsAt | client/src/pages/Home.jsx:33-34 | `includes` holds exactly when the search string occurs at some position |
| Text.ContainsEmpty | client/src/pages/Home.jsx:33-34 | every string includes the empty search string |
| Store.Patched | server/server.js:205-213 | the COALESCE update replaces exactly the given fields; id, route and booking date never change |
| Store.PatchedWithNothingIsIdentity | server/server.js:205-213 | an update that sends no field, or sends back the stored values, leaves the row unchanged |
| Store.Missing | server/server.js:22 | a request field counts as given exactly when it is present and not the empty string |
| Store.Coalesce | server/server.js:207-209 | `COALESCE(?, column)` yields the value sent when there is one; sending nothing or the stored value keeps the stored value |
| Store.PatchedIdempotent | server/server.js:205-213 | applying the same partial update twice equals applying it once |
| Store.RouteBefore | server/server.js:63 | the `ORDER BY date, departure_time` comparison: by date, and by departure time on the same date, both as TEXT |
| Store.RouteBeforeTotal | server/server.js:63 | any two routes are ordered by (date, departure_time) one way or the other |
| Store.RouteBeforeTransitive | server/server.js:63 | the (date, departure_time) order is transitive |
| Store.StrictlyBeforeThenBefore | server/server.js:63 | a route strictly before a second one is strictly before everything not earlier than the second |
| Store.RouteSlot | server/server.js:63 | a new route's slot in an ordered listing comes after every row not later than it (ties included) and before every row strictly later |
| Store.SplicedSorted | server/server.js:63 | placing a route at its slot keeps the listing ordered by (date, departure_time) |
| Store.InsertByDateTime | server/server.js:63 | inserting a route into a listing ordered by (date, departure_time) keeps it ordered; the result is the old listing plus exactly that route, as a multiset |
| Store.SplicedTiesById | server/server.js:63 | a route with a larger id than every listed one, placed before every strictly later row, keeps tied routes in ascending id order |
| Store.InsertKeepsTiesById | server/server.js:63 | inserting a route with a larger id keeps routes that tie on (date, departure_time) in ascending id order |
| Store.BookingSlot | server/server.js:150 | a new booking's slot in a newest-first listing comes after every row not older than it (same time included) and before every older row |
| Store.SplicedNewestFirst | server/server.js:150 | placing a booking at its slot keeps the listing newest first |
| Store.InsertNewestFirst | server/server.js:150 | inserting a row into a `booking_date DESC` listing keeps it ordered; the result is the old listing plus exactly that row, as a multiset |
| Store.SplicedSameTimeById | server/server.js:150 | a booking with a larger id than every listed one, placed before every older row, keeps bookings made at the same time in ascending id order |
| Store.InsertKeepsSameTimeById | server/server.js:150 | inserting a booking with a larger id keeps bookings made at the same time in ascending id order |
| Store.RouteListing | server/server.js:63 | the route listing is ordered by date, then departure time |
| Store.RouteListingLength | server/server.js:62-74 | the listing has one row per stored route in the id range |
| Store.RouteListingMembers | server/server.js:62-74 | the listing holds exactly the stored routes of the id range, each as stored |
| Store.RouteListingTiesById | server/server.js:63 | routes that tie on (date, departure_time) are listed by ascending id |
| Store.SeatListing | server/server.js:125-139 | the booked-seats list has one entry per booking on the route, and holds exactly the seats of the bookings on that route and no others |
| Store.SeatListingDistinct | server/server.js:126-134 | under UNIQUE(route_id, seat_number) no seat is listed twice |
| Store.BookingListing | server/server.js:150 | the admin booking list is ordered newest first |
| Store.BookingListingLength | server/server.js:148-149 | the inner JOIN returns one row per booking whose route exists, and drops orphaned bookings |
| Store.BookingListingMembers | server/server.js:144-151 | the rows are exactly those bookings joined with their routes, with the selected columns |
| Store.BookingListingSameTimeById | server/server.js:150 | bookings made at the same time are listed by ascending id |
| Store.BookingService.constructor | server/database.js:19-56 | a new database has three empty tables, counters at 1, and satisfies the invariant |
| Store.BookingService.InsertUser | server/server.js:27-35 | the user INSERT answers Conflict and changes nothing on a taken username; otherwise it stores the row under the next id and returns that id; other tables unchanged |
| Store.BookingService.Register | server/server.js:20-37 | a missing or empty username or password gives BadRequest and inserts nothing; a duplicate gives Conflict; otherwise it returns the new user id |
| Store.BookingService.Login | server/server.js:40-56 | Ok exactly when a stored user matches both username and password; it returns only that user's id and username; otherwise Unauthorized |
| Store.BookingService.InsertRoute | server/database.js:83-91 | a route INSERT with every column given stores the row under the next id and changes nothing else |
| Store.BookingService.CreateRoute | server/server.js:93-107 | a missing column gives BadRequest with no change; otherwise the route is stored with status `scheduled` (the column default, database.js:27) and its id is returned |
| Store.BookingService.GetRoute | server/server.js:77-90 | returns the stored row for the id, or no data when there is none |
| Store.BookingService.ListRoutes | server/server.js:62-74 | returns every stored route exactly once, as stored, ordered by (date, departure_time), with tied routes by ascending id |
| Store.BookingService.SetRouteStatus | server/server.js:110-120 | overwrites the status of the matching route with any value, NULL included; changes is 1 or 0; nothing else changes |
| Store.BookingService.BookedSeats | server/server.js:125-140 | returns exactly the seat numbers booked on the route (never one of another route), each once |
| Store.BookingService.ListBookings | server/server.js:143-162 | returns every booking whose route exists, joined with its route, newest first, with bookings made at the same time by ascending id |
| Store.BookingService.CreateBooking | server/server.js:165-185 | a missing field gives BadRequest; a held (route, seat) gives Conflict; both with the table unchanged; otherwise it returns a fresh id, the row is stored and its seat is now booked on its route; the invariant is kept in every case |
| Store.BookingService.UpdateBooking | server/server.js:188-235 | an unknown id gives NotFound with no change; a new seat held by another booking on the route gives Conflict with no change; otherwise only that row is COALESCE-updated and route_id is never written |
| Store.BookingService.DeleteBooking | server/server.js:238-255 | removes exactly the booking with that id and nothing else; NotFound with no change when no row matches |
| Store.SameSeatTwice | server/server.js:165-185 | two requests for the same (route, seat) never both succeed; on a free seat the first wins and the second gets Conflict |
| Store.BookThenShowSeats | server/server.js:126-138 | after a booking, the route's booked seats are the seats held before plus the new seat exactly when the booking succeeded |
| Store.CancelledRouteStillBookable | server/server.js:165-185 | the server accepts a booking on a cancelled route: the create handler never looks at the route |
| Store.BookCancelRebook | server/server.js:238-255 | book a seat, fail to book it again, delete the booking, book it again under a new id |
| Seed.DayPlan | server/database.js:90-92 | one day's plan is the five patterns in order, each on that date |
| Seed.SeedPlanAt | server/database.js:85-93 | the plan has 5 × days entries, and entry 5·i + j is pattern j on day i |
| Seed.SeededSnoc | server/database.js:91 | inserting one more planned route adds exactly one row at the next id |
| Seed.SeededContents | server/database.js:83-93 | seeding keeps every old row and adds the planned routes at consecutive ids, each with status `scheduled` |
| Seed.SeededSize | server/database.js:85-93 | seeding an empty table gives exactly one row per planned route |
| Seed.CountOnDate | server/database.js:80 | `count(*)` for a date is zero exactly when no route has that date |
| Seed.CountOnDatePositive | server/database.js:80-81 | a stored route dated today makes `count(*)` for today non-zero |
| Seed.SeededToday | server/database.js:79-93 | after seeding from today, today has routes |
| Seed.DayPlanStep | server/database.js:90 | the first j + 1 routes of a day are its first j routes and pattern j |
| Seed.SeedAdmin | server/database.js:59-65 | inserts `admin`/`admin123` only when no user is named `admin`, and never touches a stored admin; afterwards exactly one user is named `admin` |
| Seed.SeedDay | server/database.js:90-92 | one day's `forEach` inserts that day's five routes, in pattern order, at the next five ids |
| Seed.SeedRoutes | server/database.js:78-96 | when today has no route it inserts the 35-entry plan (7 days × 5 patterns, status `scheduled`) at the next 35 ids; otherwise it inserts nothing; afterwards today has routes |
| Seed.InitDb | server/database.js:15-98 | a first start yields one user (1, admin, admin123), exactly 35 routes at ids 1..35 and no bookings |
| Seed.Restart | server/database.js:15-98 | a restart keeps every table; it adds the admin at the next user id only when none exists, and the 35-route plan at the next route ids only when today has no route; with both present it changes nothing; afterwards there is exactly one admin and today has routes |
| Seed.StartTwiceSameDay | server/database.js:59-96 | starting twice on the same day seeds once: one admin and the same 35 routes |
| SeatLayout.Range | client/src/components/SeatLayout.jsx:7 | `Array.from` gives 1..n, each once, ascending |
| SeatLayout.Seats | client/src/components/SeatLayout.jsx:3-7 | the seat list is exactly 1..40, ascending |
| SeatLayout.StatusOf | client/src/components/SeatLayout.jsx:9-13 | booked if and only if in bookedSeats (even when selected); selected if and only if it equals the selection and is not booked; available otherwise |
| SeatLayout.Click | client/src/components/SeatLayout.jsx:58 | a click calls onSelect with that seat if and only if the seat is not booked |
| SeatLayout.ClickSelectsOnlyThatSeat | client/src/components/SeatLayout.jsx:58 | after a click on a free seat, that seat is the only one drawn as selected, and booked seats stay booked |
| SeatLayout.JsRem | client/src/components/SeatLayout.jsx:53 | JavaScript `%` takes the dividend's sign and agrees with the mathematical remainder on non-negative numbers |
| SeatLayout.JsRemOdd | client/src/components/SeatLayout.jsx:53 | negating the dividend negates JavaScript's remainder |
| SeatLayout.IsRightSide | client/src/components/SeatLayout.jsx:53 | a real seat is drawn on the right side exactly when it is in grid column 3 or 4 |
| SeatLayout.HasAisleMargin | client/src/components/SeatLayout.jsx:79 | a real seat carries the aisle margin exactly when it is in grid column 2 |
| SeatLayout.RemOfColumn | client/src/components/SeatLayout.jsx:53 | a seat's JavaScript remainder by 4 is its grid column's, column 4 giving 0 |
| SeatLayout.Column | client/src/components/SeatLayout.jsx:21 | the 4-column grid places each seat in a column from 1 to 4 |
| SeatLayout.SeatGeometry | client/src/components/SeatLayout.jsx:53-79 | a seat is on the right side if and only if it is in grid column 3 or 4; it has the aisle margin if and only if it is in column 2; the 40 seats fill rows 1 to 10 |
| SeatLayout.RowLayout | client/src/components/SeatLayout.jsx:79 | every row reads left, left with the aisle margin, right, right |
| AdminPage.KeepAvailable | client/src/pages/AdminPage.jsx:78 | the filter keeps exactly the seats that are not booked or are the current seat, each as often as in the input, as an order-preserving subsequence of the input |
| AdminPage.KeepAvailableIncreasing | client/src/pages/AdminPage.jsx:75-78 | filtering an ascending seat list leaves it ascending |
| AdminPage.AvailableSeats | client/src/pages/AdminPage.jsx:74-79 | seat s is available if and only if 1 ≤ s ≤ 40 and (s is not booked or s is the current seat); ascending; the current seat in 1..40 is always included |
| AdminPage.SeatOptions | client/src/pages/AdminPage.jsx:294-302 | the options always include the current seat; they are the available seats, with a fallback option only when the current seat is missing |
| AdminPage.FallbackOnlyWhenMissing | client/src/pages/AdminPage.jsx:299-302 | once availability has loaded for a real seat there is no fallback; on the first edit, while the list is still the initial empty one, the current seat is the only option |
| AdminPage.StaleOptionsUntilFetched | client/src/pages/AdminPage.jsx:47-66 | the seat list is never cleared: until a new fetch arrives, the selector offers the previous edit's list plus the current seat |
| AdminPage.Truthy | client/src/pages/AdminPage.jsx:62 | every real route id (1 or more) passes the `if (booking.route_id)` test, and an absent one never does |
| AdminPage.SeatsAfterEditClick | client/src/pages/AdminPage.jsx:62-64 | availability is recomputed only when the booking carries a truthy route_id and the fetch succeeds; otherwise the previous list stays |
| AdminPage.OfferedSeatNeverConflicts | client/src/pages/AdminPage.jsx:77-78 | when the booked list is the server's list for the route, any offered seat passes the update's UNIQUE check |
| AdminPage.ToggledStatus | client/src/pages/AdminPage.jsx:337 | `cancelled` becomes `scheduled`; any other status, including none, becomes `cancelled` |
| AdminPage.ToggleTwice | client/src/pages/AdminPage.jsx:337 | toggling twice restores `scheduled` or `cancelled`; a NULL status becomes `scheduled` |
| AdminPage.ApplyStatus | client/src/pages/AdminPage.jsx:341 | the optimistic map keeps the length and every id; it changes only the status of routes with the matching id and leaves every other route unchanged |
| AdminPage.OptimisticUpdateMatchesServer | client/src/pages/AdminPage.jsx:339-341 | when the list mirrors the table, the optimistic list equals, row by row, the table after the server's status UPDATE |
| Home.FilterRoutes | client/src/pages/Home.jsx:31-36 | the result is an order-preserving subsequence of the routes and holds exactly those with the selected date whose origin and destination contain the search strings case-insensitively, each as often as in the input |
| Home.Matches | client/src/pages/Home.jsx:32-35 | a route matches exactly when its date is the selected one and the lower-cased origin and destination each contain the lower-cased search string at some position |
| Home.RoutesOn | client/src/pages/Home.jsx:32 | exactly the routes of the selected date, each as often as in the list, as an order-preserving subsequence of it |
| Home.EmptySearchShowsDate | client/src/pages/Home.jsx:31-36 | with both search strings empty the result is exactly the routes on the selected date, in order |
| Home.SearchIgnoresCase | client/src/pages/Home.jsx:33-34 | lower-casing the search strings does not change the result |
| Home.ActionFor | client/src/pages/Home.jsx:131-139 | a route is unavailable if and only if its status is `cancelled`; otherwise the card links to the seat selection of that route's id |
| Home.ToggleFlipsBookability | client/src/pages/Home.jsx:131-139 | the admin toggle flips whether the home page lets a route be booked |

## Left out

- HTTP plumbing is not modelled: Express routing, JSON bodies, CORS, logging and `app.listen`. The status code of a handler that can fail is a constructor of `Outcome`; the others answer 200 whenever their statement runs.
- The error text used to tell a UNIQUE violation from other errors (`includes("UNIQUE constraint failed")`) is not modelled. A violation is the `Conflict` outcome.
- Storage failures are not modelled: the 400/500 answers for a failing database call other than a constraint violation, and the `row &&` guard of the seeding count. Every statement is assumed to run.
- The sqlite3 connection, asynchronous callbacks, `db.serialize`, prepared-statement lifecycle and the `ALTER TABLE ... ADD COLUMN status` migration are not modelled. Statements run in program order, one atomic step each.
- Concurrency between requests is not modelled. SQLite serialises statements; the model runs handlers one after another.
- `Date`, `toISOString` and `setDate` are not modelled. The seven seeding dates come in as the `days` parameter, and the date picker's default date is the caller's `date` argument.
- `CURRENT_TIMESTAMP` is not modelled. `booking_date` is an integer supplied by the caller (`now`), and ordering by it stands for ordering the timestamp text.
- The REAL `price` column is an integer. No floating point is modelled.
- `Text.LowerChar` folds only ASCII letters. JavaScript's `toLowerCase` also folds other Unicode letters.
- Foreign keys are declared but never enforced by the code. The model does not check a booking's route either; `Store.CancelledRouteStillBookable` shows a consequence.
- SQLite type affinity is not modelled. `GET /api/bookings/:route_id` compares the id from the URL text to an INTEGER column, and the admin seat selector may send the seat number back as text; the model treats ids and seat numbers as integers throughout.
- The React rendering, hooks, styling, axios calls, `alert`/`setTimeout` and the remaining pages are not modelled: LoginPage.jsx, RegisterPage.jsx, BookingPage.jsx, Navbar.jsx and App.jsx are UI and I/O glue.
- server/test_register.js is not modelled. It is a network smoke script.
- `SeatLayout.JsRem`: sign and range are stated for all integers, but its value is tied to the mathematical remainder only for non-negative dividends. Seat numbers are positive.
