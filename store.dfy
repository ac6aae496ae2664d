/** The REST service (server/server.js) as a table machine: one object holds
    the three tables, and each HTTP handler is a method that runs its one SQL
    statement as a single atomic step and reports the HTTP outcome. */
module Store {
  import opened Schema
  import Text

  /** What a handler answers: `Ok` carries `lastID` or `changes` (HTTP 200);
      the others are 409, 404, 401 and 400. */
  datatype Outcome<T> = Ok(value: T) | Conflict | NotFound | Unauthorized | BadRequest

  /** The `user` object login hands back: no password. */
  datatype Identity = Identity(id: int, username: string)

  /** One row of the administrative booking list: a booking joined with its route. */
  datatype BookingView = BookingView(id: int, seatNumber: int, passengerName: string,
                                     passengerPhone: string, bookingDate: int, routeId: int,
                                     origin: string, destination: string, date: string,
                                     departureTime: string)

  function ViewOf(b: Booking, r: Route): BookingView
  {
    BookingView(b.id, b.seatNumber, b.passengerName, b.passengerPhone, b.bookingDate, b.routeId,
                r.origin, r.destination, r.date, r.departureTime)
  }

  /** JavaScript's `!x` on a request field: absent or the empty string. */
  function Missing(field: Option<string>): (missing: bool)
    ensures !missing <==> field.Some? && |field.value| > 0
  {
    field.None? || field.value == ""
  }

  /** SQL `COALESCE(?, column)`: the value sent when there is one, else the
      stored one; sending nothing or the stored value leaves the column as it is. */
  function Coalesce<T>(given: Option<T>, stored: T): (v: T)
    ensures given.Some? ==> v == given.value
    ensures given == None || given == Some(stored) ==> v == stored
  {
    if given.Some? then given.value else stored
  }

  /** The row `UPDATE bookings SET seat_number = COALESCE(?, seat_number), ...`
      writes: each absent field keeps its stored value, and neither the id,
      the route nor the booking date can change. */
  function Patched(b: Booking, seatNumber: Option<int>, passengerName: Option<string>,
                   passengerPhone: Option<string>): (p: Booking)
    ensures p.id == b.id && p.routeId == b.routeId && p.bookingDate == b.bookingDate
    ensures p.seatNumber == if seatNumber.Some? then seatNumber.value else b.seatNumber
    ensures p.passengerName == if passengerName.Some? then passengerName.value else b.passengerName
    ensures p.passengerPhone == if passengerPhone.Some? then passengerPhone.value else b.passengerPhone
  {
    b.(seatNumber := Coalesce(seatNumber, b.seatNumber),
       passengerName := Coalesce(passengerName, b.passengerName),
       passengerPhone := Coalesce(passengerPhone, b.passengerPhone))
  }

  /** Sending back the stored values, or nothing at all, leaves the row as it is. */
  lemma PatchedWithNothingIsIdentity(b: Booking)
    ensures Patched(b, None, None, None) == b
    ensures Patched(b, Some(b.seatNumber), Some(b.passengerName), Some(b.passengerPhone)) == b
  {
  }

  /** Applying the same partial update twice is the same as once. */
  lemma PatchedIdempotent(b: Booking, seatNumber: Option<int>, passengerName: Option<string>,
                          passengerPhone: Option<string>)
    ensures var once := Patched(b, seatNumber, passengerName, passengerPhone);
            Patched(once, seatNumber, passengerName, passengerPhone) == once
  {
  }

  // ---- ORDER BY date, departure_time -------------------------------------------------

  /** `a` may be listed before `b` under `ORDER BY date, departure_time`. */
  predicate RouteBefore(a: Route, b: Route)
  {
    if a.date != b.date then Text.StrLe(a.date, b.date) else Text.StrLe(a.departureTime, b.departureTime)
  }

  lemma RouteBeforeTotal(a: Route, b: Route)
    ensures RouteBefore(a, b) || RouteBefore(b, a)
  {
    Text.StrLeTotal(a.date, b.date);
    Text.StrLeTotal(a.departureTime, b.departureTime);
  }

  lemma RouteBeforeTransitive(a: Route, b: Route, c: Route)
    requires RouteBefore(a, b) && RouteBefore(b, c)
    ensures RouteBefore(a, c)
  {
    if a.date == b.date && b.date == c.date {
      Text.StrLeTransitive(a.departureTime, b.departureTime, c.departureTime);
    } else if a.date != b.date && b.date != c.date {
      Text.StrLeTransitive(a.date, b.date, c.date);
      if a.date == c.date {
        Text.StrLeAntisymmetric(a.date, b.date);
      }
    }
  }

  ghost predicate SortedByDateTime(rows: seq<Route>)
  {
    forall i, j :: 0 <= i < j < |rows| ==> RouteBefore(rows[i], rows[j])
  }

  /** `a` sorts strictly before `b`: no tie on date and departure time. */
  predicate StrictlyBefore(a: Route, b: Route)
  {
    RouteBefore(a, b) && !RouteBefore(b, a)
  }

  /** `a` and `b` tie on date and departure time. */
  predicate SameSlot(a: Route, b: Route)
  {
    RouteBefore(a, b) && RouteBefore(b, a)
  }

  lemma StrictlyBeforeThenBefore(a: Route, b: Route, c: Route)
    requires StrictlyBefore(a, b) && RouteBefore(b, c)
    ensures StrictlyBefore(a, c)
  {
    RouteBeforeTransitive(a, b, c);
    if RouteBefore(c, a) {
      RouteBeforeTransitive(b, c, a);
    }
  }

  /** Where a new row goes in an ordered listing: after every row it does not
      strictly precede (the rows it ties with included), before the rest. */
  function RouteSlot(rows: seq<Route>, r: Route): (k: nat)
    requires SortedByDateTime(rows)
    ensures k <= |rows|
    ensures forall i :: 0 <= i < k ==> RouteBefore(rows[i], r)
    ensures forall i :: k <= i < |rows| ==> StrictlyBefore(r, rows[i])
    decreases |rows|
  {
    if |rows| == 0 then 0
    else if StrictlyBefore(r, rows[0]) then
      assert forall j :: 0 <= j < |rows| ==> StrictlyBefore(r, rows[j]) by {
        forall j | 0 <= j < |rows| ensures StrictlyBefore(r, rows[j]) {
          if j > 0 { StrictlyBeforeThenBefore(r, rows[0], rows[j]); }
        }
      }
      0
    else
      RouteBeforeTotal(r, rows[0]);
      var k := RouteSlot(rows[1..], r);
      assert forall i :: 1 <= i < k + 1 ==> rows[i] == rows[1..][i - 1];
      k + 1
  }

  /** A row spliced in after the rows it does not strictly precede and before
      the rows it does keeps a listing ordered. */
  lemma SplicedSorted(rows: seq<Route>, k: nat, r: Route)
    requires SortedByDateTime(rows) && k <= |rows|
    requires forall i :: 0 <= i < k ==> RouteBefore(rows[i], r)
    requires forall i :: k <= i < |rows| ==> StrictlyBefore(r, rows[i])
    ensures SortedByDateTime(rows[..k] + [r] + rows[k..])
  {
    var res := rows[..k] + [r] + rows[k..];
    forall i, j | 0 <= i < j < |res| ensures RouteBefore(res[i], res[j]) {
      if j < k {
        assert res[i] == rows[i] && res[j] == rows[j];
      } else if j == k {
        assert res[i] == rows[i] && res[j] == r;
      } else if i < k {
        assert res[i] == rows[i] && res[j] == rows[j - 1];
      } else if i == k {
        assert res[i] == r && res[j] == rows[j - 1];
      } else {
        assert res[i] == rows[i - 1] && res[j] == rows[j - 1];
      }
    }
  }

  /** Places `r` into an ordered listing, before the first row it strictly
      precedes: the listing stays ordered and gains exactly `r`, and a row that
      ties with earlier ones is listed after them. */
  function InsertByDateTime(rows: seq<Route>, r: Route): (res: seq<Route>)
    requires SortedByDateTime(rows)
    ensures SortedByDateTime(res)
    ensures multiset(res) == multiset(rows) + multiset{r}
    ensures |res| == |rows| + 1
    ensures forall x :: x in res <==> x in rows || x == r
  {
    var k := RouteSlot(rows, r);
    SplicedSorted(rows, k, r);
    assert rows == rows[..k] + rows[k..];
    rows[..k] + [r] + rows[k..]
  }

  /** Rows that tie on date and departure time are listed in rowid order. */
  ghost predicate TiesById(rows: seq<Route>)
  {
    forall i, j :: 0 <= i < j < |rows| && SameSlot(rows[i], rows[j]) ==> rows[i].id < rows[j].id
  }

  /** A row spliced in before every row it strictly precedes, with a larger
      id than every listed one, keeps ties in rowid order. */
  lemma SplicedTiesById(rows: seq<Route>, k: nat, r: Route)
    requires TiesById(rows) && k <= |rows|
    requires forall i :: k <= i < |rows| ==> StrictlyBefore(r, rows[i])
    requires forall i :: 0 <= i < |rows| ==> rows[i].id < r.id
    ensures TiesById(rows[..k] + [r] + rows[k..])
  {
    var res := rows[..k] + [r] + rows[k..];
    forall i, j | 0 <= i < j < |res| ensures SameSlot(res[i], res[j]) ==> res[i].id < res[j].id {
      if j < k {
        assert res[i] == rows[i] && res[j] == rows[j];
      } else if j == k {
        assert res[i] == rows[i] && res[j] == r;
      } else if i < k {
        assert res[i] == rows[i] && res[j] == rows[j - 1];
      } else if i == k {
        assert res[i] == r && res[j] == rows[j - 1];
      } else {
        assert res[i] == rows[i - 1] && res[j] == rows[j - 1];
      }
    }
  }

  /** Inserting a row with a larger id than every listed one keeps ties in rowid order. */
  lemma InsertKeepsTiesById(rows: seq<Route>, r: Route)
    requires SortedByDateTime(rows) && TiesById(rows)
    requires forall x :: x in rows ==> x.id < r.id
    ensures TiesById(InsertByDateTime(rows, r))
  {
    SplicedTiesById(rows, RouteSlot(rows, r), r);
  }

  // ---- ORDER BY bookings.booking_date DESC -------------------------------------------

  ghost predicate NewestFirst(rows: seq<BookingView>)
  {
    forall i, j :: 0 <= i < j < |rows| ==> rows[i].bookingDate >= rows[j].bookingDate
  }

  /** Where a new booking goes in a newest-first listing: after every row not
      older than it (those made at the same time included), before the rest. */
  function BookingSlot(rows: seq<BookingView>, v: BookingView): (k: nat)
    requires NewestFirst(rows)
    ensures k <= |rows|
    ensures forall i :: 0 <= i < k ==> rows[i].bookingDate >= v.bookingDate
    ensures forall i :: k <= i < |rows| ==> v.bookingDate > rows[i].bookingDate
    decreases |rows|
  {
    if |rows| == 0 || v.bookingDate > rows[0].bookingDate then 0
    else
      var k := BookingSlot(rows[1..], v);
      assert forall i :: 1 <= i < k + 1 ==> rows[i] == rows[1..][i - 1];
      k + 1
  }

  /** A booking spliced in after the rows not older than it and before the
      rows older than it keeps a listing newest first. */
  lemma SplicedNewestFirst(rows: seq<BookingView>, k: nat, v: BookingView)
    requires NewestFirst(rows) && k <= |rows|
    requires forall i :: 0 <= i < k ==> rows[i].bookingDate >= v.bookingDate
    requires forall i :: k <= i < |rows| ==> v.bookingDate > rows[i].bookingDate
    ensures NewestFirst(rows[..k] + [v] + rows[k..])
  {
    var res := rows[..k] + [v] + rows[k..];
    forall i, j | 0 <= i < j < |res| ensures res[i].bookingDate >= res[j].bookingDate {
      if j < k {
        assert res[i] == rows[i] && res[j] == rows[j];
      } else if j == k {
        assert res[i] == rows[i] && res[j] == v;
      } else if i < k {
        assert res[i] == rows[i] && res[j] == rows[j - 1];
      } else if i == k {
        assert res[i] == v && res[j] == rows[j - 1];
      } else {
        assert res[i] == rows[i - 1] && res[j] == rows[j - 1];
      }
    }
  }

  /** Places `v` into a newest-first listing, before the first row older than
      it: the listing stays newest first and gains exactly `v`, and a booking
      made at the same time as earlier ones follows them. */
  function InsertNewestFirst(rows: seq<BookingView>, v: BookingView): (res: seq<BookingView>)
    requires NewestFirst(rows)
    ensures NewestFirst(res)
    ensures multiset(res) == multiset(rows) + multiset{v}
    ensures |res| == |rows| + 1
    ensures forall x :: x in res <==> x in rows || x == v
  {
    var k := BookingSlot(rows, v);
    SplicedNewestFirst(rows, k, v);
    assert rows == rows[..k] + rows[k..];
    rows[..k] + [v] + rows[k..]
  }

  /** Bookings made at the same time are listed in rowid order. */
  ghost predicate SameTimeById(rows: seq<BookingView>)
  {
    forall i, j :: 0 <= i < j < |rows| && rows[i].bookingDate == rows[j].bookingDate ==> rows[i].id < rows[j].id
  }

  /** A booking spliced in before every older row, with a larger id than
      every listed one, keeps same-time bookings in rowid order. */
  lemma SplicedSameTimeById(rows: seq<BookingView>, k: nat, v: BookingView)
    requires SameTimeById(rows) && k <= |rows|
    requires forall i :: k <= i < |rows| ==> v.bookingDate > rows[i].bookingDate
    requires forall i :: 0 <= i < |rows| ==> rows[i].id < v.id
    ensures SameTimeById(rows[..k] + [v] + rows[k..])
  {
    var res := rows[..k] + [v] + rows[k..];
    forall i, j | 0 <= i < j < |res|
      ensures res[i].bookingDate == res[j].bookingDate ==> res[i].id < res[j].id
    {
      if j < k {
        assert res[i] == rows[i] && res[j] == rows[j];
      } else if j == k {
        assert res[i] == rows[i] && res[j] == v;
      } else if i < k {
        assert res[i] == rows[i] && res[j] == rows[j - 1];
      } else if i == k {
        assert res[i] == v && res[j] == rows[j - 1];
      } else {
        assert res[i] == rows[i - 1] && res[j] == rows[j - 1];
      }
    }
  }

  /** Inserting a booking with a larger id than every listed one keeps
      same-time bookings in rowid order. */
  lemma InsertKeepsSameTimeById(rows: seq<BookingView>, v: BookingView)
    requires NewestFirst(rows) && SameTimeById(rows)
    requires forall x :: x in rows ==> x.id < v.id
    ensures SameTimeById(InsertNewestFirst(rows, v))
  {
    SplicedSameTimeById(rows, BookingSlot(rows, v), v);
  }

  /** The keys of a table in the id range [lo, hi). */
  function KeysIn<T>(table: map<int, T>, lo: int, hi: int): set<int>
  {
    set k | k in table && lo <= k < hi
  }

  /** Every row is stored under its own id. */
  ghost predicate KeyedById(routes: map<int, Route>)
  {
    forall k :: k in routes ==> routes[k].id == k
  }

  /** `SELECT * FROM routes ORDER BY date, departure_time` over the rows with
      ids in [lo, hi), built by inserting each row in rowid order. */
  function RouteListing(routes: map<int, Route>, lo: int, hi: int): (rows: seq<Route>)
    ensures SortedByDateTime(rows)
    decreases hi - lo
  {
    if hi <= lo then []
    else
      var rest := RouteListing(routes, lo, hi - 1);
      if hi - 1 in routes then InsertByDateTime(rest, routes[hi - 1]) else rest
  }

  /** The listing has one row per route with an id in [lo, hi). */
  lemma {:induction false} RouteListingLength(routes: map<int, Route>, lo: int, hi: int)
    ensures |RouteListing(routes, lo, hi)| == |KeysIn(routes, lo, hi)|
    decreases hi - lo
  {
    if hi <= lo {
      assert KeysIn(routes, lo, hi) == {};
    } else {
      RouteListingLength(routes, lo, hi - 1);
      if hi - 1 in routes {
        assert KeysIn(routes, lo, hi) == KeysIn(routes, lo, hi - 1) + {hi - 1};
      } else {
        assert KeysIn(routes, lo, hi) == KeysIn(routes, lo, hi - 1);
      }
    }
  }

  /** The listing holds exactly the routes with an id in [lo, hi). */
  lemma {:induction false} RouteListingMembers(routes: map<int, Route>, lo: int, hi: int)
    requires KeyedById(routes)
    ensures forall r :: r in RouteListing(routes, lo, hi) <==> r.id in routes && lo <= r.id < hi && routes[r.id] == r
    decreases hi - lo
  {
    if hi > lo {
      RouteListingMembers(routes, lo, hi - 1);
    }
  }

  /** Routes that tie on date and departure time come out in rowid order:
      each row is inserted after the earlier rows it ties with. */
  lemma {:induction false} RouteListingTiesById(routes: map<int, Route>, lo: int, hi: int)
    requires KeyedById(routes)
    ensures TiesById(RouteListing(routes, lo, hi))
    decreases hi - lo
  {
    if hi > lo {
      RouteListingTiesById(routes, lo, hi - 1);
      RouteListingMembers(routes, lo, hi - 1);
      if hi - 1 in routes {
        InsertKeepsTiesById(RouteListing(routes, lo, hi - 1), routes[hi - 1]);
      }
    }
  }

  /** The keys in [lo, hi) of the bookings on one route. */
  function KeysOnRoute(bookings: map<int, Booking>, route: int, lo: int, hi: int): set<int>
  {
    set k | k in bookings && lo <= k < hi && bookings[k].routeId == route
  }

  /** `SELECT seat_number FROM bookings WHERE route_id = ?` over the ids in
      [lo, hi), in rowid order, projected to the seat numbers: one entry per
      matching row, and exactly the seats those rows hold. */
  function SeatListing(bookings: map<int, Booking>, route: int, lo: int, hi: int): (seats: seq<int>)
    ensures |seats| == |KeysOnRoute(bookings, route, lo, hi)|
    ensures forall n :: n in seats <==>
              exists k :: k in bookings && lo <= k < hi && bookings[k].routeId == route && bookings[k].seatNumber == n
    decreases hi - lo
  {
    if hi <= lo then
      assert KeysOnRoute(bookings, route, lo, hi) == {};
      []
    else
      var rest := SeatListing(bookings, route, lo, hi - 1);
      if hi - 1 in bookings && bookings[hi - 1].routeId == route then
        assert KeysOnRoute(bookings, route, lo, hi) == KeysOnRoute(bookings, route, lo, hi - 1) + {hi - 1};
        rest + [bookings[hi - 1].seatNumber]
      else
        assert KeysOnRoute(bookings, route, lo, hi) == KeysOnRoute(bookings, route, lo, hi - 1);
        rest
  }

  predicate NoDuplicates(s: seq<int>)
  {
    forall i, j :: 0 <= i < j < |s| ==> s[i] != s[j]
  }

  /** Under the UNIQUE(route_id, seat_number) constraint no seat is listed twice. */
  lemma {:induction false} SeatListingDistinct(bookings: map<int, Booking>, route: int, lo: int, hi: int)
    requires SeatsDistinct(bookings)
    ensures NoDuplicates(SeatListing(bookings, route, lo, hi))
    decreases hi - lo
  {
    if hi > lo {
      SeatListingDistinct(bookings, route, lo, hi - 1);
      if hi - 1 in bookings && bookings[hi - 1].routeId == route {
        SeatHeldOnce(bookings, hi - 1);
        var rest := SeatListing(bookings, route, lo, hi - 1);
        var n := bookings[hi - 1].seatNumber;
        assert forall k :: k in bookings && lo <= k < hi - 1 && bookings[k].routeId == route ==>
                 bookings[k].seatNumber != n;
        assert n !in rest;
        var seats := rest + [n];
        forall i, j | 0 <= i < j < |seats| ensures seats[i] != seats[j] {
          if j == |rest| {
            assert seats[i] == rest[i];
          }
        }
      }
    }
  }

  /** The keys in [lo, hi) of the bookings whose route exists. */
  function JoinedKeys(bookings: map<int, Booking>, routes: map<int, Route>, lo: int, hi: int): set<int>
  {
    set k | k in bookings && lo <= k < hi && bookings[k].routeId in routes
  }

  /** The administrative join over the booking ids in [lo, hi): each booking
      whose route exists, joined with it, `ORDER BY booking_date DESC`. */
  function BookingListing(bookings: map<int, Booking>, routes: map<int, Route>, lo: int, hi: int)
    : (rows: seq<BookingView>)
    ensures NewestFirst(rows)
    decreases hi - lo
  {
    if hi <= lo then []
    else
      var rest := BookingListing(bookings, routes, lo, hi - 1);
      if hi - 1 in bookings && bookings[hi - 1].routeId in routes then
        InsertNewestFirst(rest, ViewOf(bookings[hi - 1], routes[bookings[hi - 1].routeId]))
      else rest
  }

  /** One row per booking in [lo, hi) whose route exists: the inner join drops orphans. */
  lemma {:induction false} BookingListingLength(bookings: map<int, Booking>, routes: map<int, Route>, lo: int, hi: int)
    ensures |BookingListing(bookings, routes, lo, hi)| == |JoinedKeys(bookings, routes, lo, hi)|
    decreases hi - lo
  {
    if hi <= lo {
      assert JoinedKeys(bookings, routes, lo, hi) == {};
    } else {
      BookingListingLength(bookings, routes, lo, hi - 1);
      if hi - 1 in bookings && bookings[hi - 1].routeId in routes {
        assert JoinedKeys(bookings, routes, lo, hi) == JoinedKeys(bookings, routes, lo, hi - 1) + {hi - 1};
      } else {
        assert JoinedKeys(bookings, routes, lo, hi) == JoinedKeys(bookings, routes, lo, hi - 1);
      }
    }
  }

  /** The rows are exactly the joins of those bookings with their routes. */
  lemma {:induction false} BookingListingMembers(bookings: map<int, Booking>, routes: map<int, Route>, lo: int, hi: int)
    requires forall k :: k in bookings ==> bookings[k].id == k
    ensures forall v :: v in BookingListing(bookings, routes, lo, hi) <==>
              v.id in bookings && lo <= v.id < hi && bookings[v.id].routeId in routes &&
              v == ViewOf(bookings[v.id], routes[bookings[v.id].routeId])
    decreases hi - lo
  {
    if hi > lo {
      BookingListingMembers(bookings, routes, lo, hi - 1);
    }
  }

  /** Bookings made at the same time come out in rowid order. */
  lemma {:induction false} BookingListingSameTimeById(bookings: map<int, Booking>, routes: map<int, Route>,
                                                      lo: int, hi: int)
    requires forall k :: k in bookings ==> bookings[k].id == k
    ensures SameTimeById(BookingListing(bookings, routes, lo, hi))
    decreases hi - lo
  {
    if hi > lo {
      BookingListingSameTimeById(bookings, routes, lo, hi - 1);
      BookingListingMembers(bookings, routes, lo, hi - 1);
      if hi - 1 in bookings && bookings[hi - 1].routeId in routes {
        InsertKeepsSameTimeById(BookingListing(bookings, routes, lo, hi - 1),
                                ViewOf(bookings[hi - 1], routes[bookings[hi - 1].routeId]));
      }
    }
  }

  class BookingService {
    var users: map<int, User>
    var routes: map<int, Route>
    var bookings: map<int, Booking>
    /** The AUTOINCREMENT counters: the id the next insert into each table gets. */
    var nextUserId: int
    var nextRouteId: int
    var nextBookingId: int

    /** Every row is stored under its own id, ids are positive and below the
        table's counter (so ids are never reused), and both UNIQUE constraints hold. */
    ghost predicate Valid()
      reads this
    {
      && 1 <= nextUserId && 1 <= nextRouteId && 1 <= nextBookingId
      && (forall k :: k in users ==> users[k].id == k && 1 <= k < nextUserId)
      && (forall k :: k in routes ==> routes[k].id == k && 1 <= k < nextRouteId)
      && (forall k :: k in bookings ==> bookings[k].id == k && 1 <= k < nextBookingId)
      && UsernamesUnique(users)
      && SeatsDistinct(bookings)
    }

    /** A freshly created database: three empty tables. */
    constructor ()
      ensures Valid()
      ensures users == map[] && routes == map[] && bookings == map[]
      ensures nextUserId == 1 && nextRouteId == 1 && nextBookingId == 1
    {
      users, routes, bookings := map[], map[], map[];
      nextUserId, nextRouteId, nextBookingId := 1, 1, 1;
    }

    // ---- users ---------------------------------------------------------------------

    /** `INSERT INTO users (username, password) VALUES (?, ?)`: the only way it
        fails is the UNIQUE constraint on username. */
    method InsertUser(username: string, password: string) returns (r: Outcome<int>)
      requires Valid()
      modifies this
      ensures Valid()
      ensures routes == old(routes) && bookings == old(bookings)
      ensures nextRouteId == old(nextRouteId) && nextBookingId == old(nextBookingId)
      ensures UsernameTaken(old(users), username) ==>
                r == Conflict && users == old(users) && nextUserId == old(nextUserId)
      ensures !UsernameTaken(old(users), username) ==>
                && r == Ok(old(nextUserId))
                && users == old(users)[old(nextUserId) := User(old(nextUserId), username, password)]
                && nextUserId == old(nextUserId) + 1
    {
      if UsernameTaken(users, username) {
        r := Conflict;
      } else {
        UserInsertKeepsUnique(users, nextUserId, User(nextUserId, username, password));
        users := users[nextUserId := User(nextUserId, username, password)];
        r := Ok(nextUserId);
        nextUserId := nextUserId + 1;
      }
    }

    /** POST /api/register: both fields must be present and non-empty, then
        the insert either succeeds or hits the username constraint. */
    method Register(username: Option<string>, password: Option<string>) returns (r: Outcome<int>)
      requires Valid()
      modifies this
      ensures Valid()
      ensures routes == old(routes) && bookings == old(bookings)
      ensures nextRouteId == old(nextRouteId) && nextBookingId == old(nextBookingId)
      ensures Missing(username) || Missing(password) ==>
                r == BadRequest && users == old(users) && nextUserId == old(nextUserId)
      ensures !Missing(username) && !Missing(password) && UsernameTaken(old(users), username.value) ==>
                r == Conflict && users == old(users) && nextUserId == old(nextUserId)
      ensures !Missing(username) && !Missing(password) && !UsernameTaken(old(users), username.value) ==>
                && r == Ok(old(nextUserId))
                && users == old(users)[old(nextUserId) := User(old(nextUserId), username.value, password.value)]
                && nextUserId == old(nextUserId) + 1
    {
      if Missing(username) || Missing(password) {
        r := BadRequest;
      } else {
        r := InsertUser(username.value, password.value);
      }
    }

    /** POST /api/login: `SELECT * FROM users WHERE username = ? AND password = ?`.
        An absent field is bound as NULL, which matches no row. */
    method Login(username: Option<string>, password: Option<string>) returns (r: Outcome<Identity>)
      ensures r.Ok? <==> username.Some? && password.Some? && CredentialsMatch(users, username.value, password.value)
      ensures r.Ok? ==> && username.Some? && password.Some?
                        && r.value.id in users
                        && users[r.value.id].username == username.value
                        && users[r.value.id].password == password.value
                        && r.value.username == username.value
      ensures !r.Ok? ==> r == Unauthorized
    {
      if username.Some? && password.Some? {
        var name, secret := username.value, password.value;
        if k :| k in users && users[k].username == name && users[k].password == secret {
          r := Ok(Identity(k, users[k].username));
        } else {
          r := Unauthorized;
        }
      } else {
        r := Unauthorized;
      }
    }

    // ---- routes --------------------------------------------------------------------

    /** `INSERT INTO routes (...) VALUES (...)` with every column given. No
        constraint on `routes` can fail once the NOT NULL values are present. */
    method InsertRoute(origin: string, destination: string, date: string, departureTime: string,
                       arrivalTime: string, price: int, status: Option<string>) returns (id: int)
      requires Valid()
      modifies this
      ensures Valid()
      ensures id == old(nextRouteId) && id !in old(routes)
      ensures routes == old(routes)[id := Route(id, origin, destination, date, departureTime, arrivalTime, price, status)]
      ensures nextRouteId == old(nextRouteId) + 1
      ensures users == old(users) && bookings == old(bookings)
      ensures nextUserId == old(nextUserId) && nextBookingId == old(nextBookingId)
    {
      id := nextRouteId;
      routes := routes[id := Route(id, origin, destination, date, departureTime, arrivalTime, price, status)];
      nextRouteId := nextRouteId + 1;
    }

    /** POST /api/routes: a missing column fails NOT NULL (400); otherwise the
        route is stored with the column default status `scheduled`. */
    method CreateRoute(origin: Option<string>, destination: Option<string>, date: Option<string>,
                       departureTime: Option<string>, arrivalTime: Option<string>, price: Option<int>)
      returns (r: Outcome<int>)
      requires Valid()
      modifies this
      ensures Valid()
      ensures users == old(users) && bookings == old(bookings)
      ensures nextUserId == old(nextUserId) && nextBookingId == old(nextBookingId)
      ensures (origin.None? || destination.None? || date.None? || departureTime.None? ||
               arrivalTime.None? || price.None?) ==>
                r == BadRequest && routes == old(routes) && nextRouteId == old(nextRouteId)
      ensures (origin.Some? && destination.Some? && date.Some? && departureTime.Some? &&
               arrivalTime.Some? && price.Some?) ==>
                && r == Ok(old(nextRouteId))
                && routes == old(routes)[old(nextRouteId) :=
                     Route(old(nextRouteId), origin.value, destination.value, date.value,
                           departureTime.value, arrivalTime.value, price.value, Some(Scheduled))]
                && nextRouteId == old(nextRouteId) + 1
    {
      if origin.None? || destination.None? || date.None? || departureTime.None? ||
         arrivalTime.None? || price.None? {
        r := BadRequest;
      } else {
        var id := InsertRoute(origin.value, destination.value, date.value, departureTime.value,
                              arrivalTime.value, price.value, Some(Scheduled));
        r := Ok(id);
      }
    }

    /** GET /api/routes/:id: the row, or no data when the id matches nothing. */
    method GetRoute(id: int) returns (row: Option<Route>)
      ensures row.Some? <==> id in routes
      ensures row.Some? ==> row.value == routes[id]
    {
      if id in routes {
        row := Some(routes[id]);
      } else {
        row := None;
      }
    }

    /** GET /api/routes: every route exactly once, ordered by date, then
        departure time. */
    method ListRoutes() returns (rows: seq<Route>)
      requires Valid()
      ensures SortedByDateTime(rows) && TiesById(rows)
      ensures |rows| == |routes|
      ensures forall r :: r in rows <==> r.id in routes && routes[r.id] == r
    {
      rows := RouteListing(routes, 1, nextRouteId);
      RouteListingLength(routes, 1, nextRouteId);
      RouteListingMembers(routes, 1, nextRouteId);
      RouteListingTiesById(routes, 1, nextRouteId);
      assert KeysIn(routes, 1, nextRouteId) == routes.Keys;
    }

    /** PUT /api/routes/:id/status: overwrites the status unconditionally
        (any value, NULL included) and reports how many rows matched. */
    method SetRouteStatus(id: int, status: Option<string>) returns (changes: int)
      requires Valid()
      modifies this
      ensures Valid()
      ensures routes == WithStatus(old(routes), id, status)
      ensures changes == if id in old(routes) then 1 else 0
      ensures users == old(users) && bookings == old(bookings)
      ensures nextUserId == old(nextUserId) && nextRouteId == old(nextRouteId)
      ensures nextBookingId == old(nextBookingId)
    {
      if id in routes {
        routes := routes[id := routes[id].(status := status)];
        changes := 1;
      } else {
        changes := 0;
      }
    }

    // ---- bookings ------------------------------------------------------------------

    /** GET /api/bookings/:route_id: `SELECT seat_number FROM bookings WHERE
        route_id = ?` mapped to the seat numbers. They are exactly the seats
        booked on that route, and the UNIQUE constraint makes each appear once. */
    method BookedSeats(routeId: int) returns (seats: seq<int>)
      requires Valid()
      ensures forall n :: n in seats <==> n in SeatsOn(bookings, routeId)
      ensures forall i, j :: 0 <= i < j < |seats| ==> seats[i] != seats[j]
    {
      seats := SeatListing(bookings, routeId, 1, nextBookingId);
      SeatListingDistinct(bookings, routeId, 1, nextBookingId);
    }

    /** GET /api/bookings: every booking whose route exists, joined with that
        route, newest first. */
    method ListBookings() returns (rows: seq<BookingView>)
      requires Valid()
      ensures NewestFirst(rows) && SameTimeById(rows)
      ensures |rows| == |set k | k in bookings && bookings[k].routeId in routes|
      ensures forall v :: v in rows <==>
                v.id in bookings && bookings[v.id].routeId in routes &&
                v == ViewOf(bookings[v.id], routes[bookings[v.id].routeId])
    {
      rows := BookingListing(bookings, routes, 1, nextBookingId);
      BookingListingLength(bookings, routes, 1, nextBookingId);
      BookingListingMembers(bookings, routes, 1, nextBookingId);
      BookingListingSameTimeById(bookings, routes, 1, nextBookingId);
      assert JoinedKeys(bookings, routes, 1, nextBookingId) == set k | k in bookings && bookings[k].routeId in routes;
    }

    /** POST /api/bookings: one INSERT. A missing column fails NOT NULL (400,
        checked before uniqueness); a (route, seat) pair already held fails the
        UNIQUE constraint (409); otherwise the row gets the next id. The route
        itself is not looked up: foreign keys are not enforced. `now` is the
        CURRENT_TIMESTAMP of the insert. */
    method CreateBooking(routeId: Option<int>, seatNumber: Option<int>, passengerName: Option<string>,
                         passengerPhone: Option<string>, now: int) returns (r: Outcome<int>)
      requires Valid()
      modifies this
      ensures Valid()
      ensures users == old(users) && routes == old(routes)
      ensures nextUserId == old(nextUserId) && nextRouteId == old(nextRouteId)
      ensures (routeId.None? || seatNumber.None? || passengerName.None? || passengerPhone.None?) ==>
                r == BadRequest && bookings == old(bookings) && nextBookingId == old(nextBookingId)
      ensures (routeId.Some? && seatNumber.Some? && passengerName.Some? && passengerPhone.Some? &&
               SeatTaken(old(bookings), old(nextBookingId), routeId.value, seatNumber.value)) ==>
                r == Conflict && bookings == old(bookings) && nextBookingId == old(nextBookingId)
      ensures (routeId.Some? && seatNumber.Some? && passengerName.Some? && passengerPhone.Some? &&
               !SeatTaken(old(bookings), old(nextBookingId), routeId.value, seatNumber.value)) ==>
                && r == Ok(old(nextBookingId))
                && bookings == old(bookings)[old(nextBookingId) :=
                     Booking(old(nextBookingId), routeId.value, seatNumber.value, passengerName.value,
                             passengerPhone.value, now)]
                && nextBookingId == old(nextBookingId) + 1
      ensures r.Ok? ==> && r.value !in old(bookings)
                        && routeId.Some? && seatNumber.Some?
                        && seatNumber.value in SeatsOn(bookings, routeId.value)
    {
      if routeId.None? || seatNumber.None? || passengerName.None? || passengerPhone.None? {
        r := BadRequest;
      } else if SeatTaken(bookings, nextBookingId, routeId.value, seatNumber.value) {
        r := Conflict;
      } else {
        var row := Booking(nextBookingId, routeId.value, seatNumber.value, passengerName.value,
                           passengerPhone.value, now);
        SeatWriteKeepsDistinct(bookings, nextBookingId, row);
        bookings := bookings[nextBookingId := row];
        assert bookings[nextBookingId].routeId == routeId.value;
        r := Ok(nextBookingId);
        nextBookingId := nextBookingId + 1;
      }
    }

    /** PUT /api/bookings/:id: the COALESCE update of seat, name and phone.
        An id that matches no row changes nothing (404); a new seat already held
        by another booking on the same route fails UNIQUE (409); `routeId` is
        read from the request but never written. */
    method UpdateBooking(id: int, seatNumber: Option<int>, passengerName: Option<string>,
                         passengerPhone: Option<string>, routeId: Option<int>) returns (r: Outcome<int>)
      requires Valid()
      modifies this
      ensures Valid()
      ensures users == old(users) && routes == old(routes)
      ensures nextUserId == old(nextUserId) && nextRouteId == old(nextRouteId)
      ensures nextBookingId == old(nextBookingId)
      ensures id !in old(bookings) ==> r == NotFound && bookings == old(bookings)
      ensures id in old(bookings) &&
              SeatTaken(old(bookings), id, old(bookings)[id].routeId, Coalesce(seatNumber, old(bookings)[id].seatNumber)) ==>
                r == Conflict && bookings == old(bookings)
      ensures id in old(bookings) &&
              !SeatTaken(old(bookings), id, old(bookings)[id].routeId, Coalesce(seatNumber, old(bookings)[id].seatNumber)) ==>
                r == Ok(1) &&
                bookings == old(bookings)[id := Patched(old(bookings)[id], seatNumber, passengerName, passengerPhone)]
    {
      if id !in bookings {
        r := NotFound;
      } else {
        var row := Patched(bookings[id], seatNumber, passengerName, passengerPhone);
        if SeatTaken(bookings, id, row.routeId, row.seatNumber) {
          r := Conflict;
        } else {
          SeatWriteKeepsDistinct(bookings, id, row);
          bookings := bookings[id := row];
          r := Ok(1);
        }
      }
    }

    /** DELETE /api/bookings/:id: removes that one row and nothing else. */
    method DeleteBooking(id: int) returns (r: Outcome<int>)
      requires Valid()
      modifies this
      ensures Valid()
      ensures users == old(users) && routes == old(routes)
      ensures nextUserId == old(nextUserId) && nextRouteId == old(nextRouteId)
      ensures nextBookingId == old(nextBookingId)
      ensures id in old(bookings) ==> r == Ok(1) && bookings == old(bookings) - {id}
      ensures id !in old(bookings) ==> r == NotFound && bookings == old(bookings)
    {
      if id in bookings {
        bookings := bookings - {id};
        r := Ok(1);
      } else {
        r := NotFound;
      }
    }
  }

  /** Two create requests for the same (route, seat), one after the other:
      they never both succeed; on a free seat the first wins and the second
      gets a conflict. */
  method SameSeatTwice(db: BookingService, routeId: int, seat: int, name: string, phone: string,
                       now: int, later: int) returns (first: Outcome<int>, second: Outcome<int>)
    requires db.Valid()
    modifies db
    ensures db.Valid()
    ensures !(first.Ok? && second.Ok?)
    ensures second == Conflict
    ensures first.Ok? <==> seat !in SeatsOn(old(db.bookings), routeId)
  {
    SeatTakenIffBooked(db.bookings, db.nextBookingId, routeId, seat);
    first := db.CreateBooking(Some(routeId), Some(seat), Some(name), Some(phone), now);
    assert seat in SeatsOn(db.bookings, routeId);
    SeatTakenIffBooked(db.bookings, db.nextBookingId, routeId, seat);
    second := db.CreateBooking(Some(routeId), Some(seat), Some(name), Some(phone), later);
  }

  /** A booking followed by a read of the booked seats of its route: the
      read shows the seats held before plus, exactly when the booking went
      through, the new one. */
  method BookThenShowSeats(db: BookingService, routeId: int, seat: int, name: string, phone: string,
                           now: int) returns (r: Outcome<int>, seats: seq<int>)
    requires db.Valid()
    modifies db
    ensures db.Valid()
    ensures r.Ok? <==> seat !in SeatsOn(old(db.bookings), routeId)
    ensures !r.Ok? ==> r == Conflict
    ensures forall n :: n in seats <==> n in SeatsOn(old(db.bookings), routeId) || (r.Ok? && n == seat)
  {
    var before := db.bookings;
    var id := db.nextBookingId;
    SeatTakenIffBooked(before, id, routeId, seat);
    r := db.CreateBooking(Some(routeId), Some(seat), Some(name), Some(phone), now);
    if r.Ok? {
      SeatsOnAfterWrite(before, id, Booking(id, routeId, seat, name, phone, now), routeId);
      assert before - {id} == before;
    }
    seats := db.BookedSeats(routeId);
  }

  /** The server does not look at a route's status: a cancelled route still
      takes bookings. Only the home page's button keeps users away from it. */
  method CancelledRouteStillBookable() returns (cancelled: int, booked: Outcome<int>)
    ensures cancelled == 1 && booked == Ok(1)
  {
    var db := new BookingService();
    var route := db.CreateRoute(Some("Galle"), Some("Matara"), Some("2026-05-01"), Some("09:00"),
                                Some("10:30"), Some(500));
    cancelled := db.SetRouteStatus(1, Some(Cancelled));
    booked := db.CreateBooking(Some(1), Some(1), Some("B"), Some("077"), 0);
  }

  /** The scenario of one route and one seat: book, fail to book again,
      cancel, book again under a new id. */
  method BookCancelRebook() returns (route: Outcome<int>, first: Outcome<int>, again: Outcome<int>,
                                     deleted: Outcome<int>, rebooked: Outcome<int>)
    ensures route == Ok(1) && first == Ok(1) && again == Conflict && deleted == Ok(1)
    ensures rebooked == Ok(2)
  {
    var db := new BookingService();
    route := db.CreateRoute(Some("Colombo"), Some("Kandy"), Some("2026-05-01"), Some("08:00"),
                            Some("11:00"), Some(1500));
    first := db.CreateBooking(Some(1), Some(5), Some("A"), Some("071"), 0);
    assert db.bookings[1].routeId == 1 && db.bookings[1].seatNumber == 5;
    again := db.CreateBooking(Some(1), Some(5), Some("A"), Some("071"), 1);
    deleted := db.DeleteBooking(1);
    assert db.bookings == map[];
    rebooked := db.CreateBooking(Some(1), Some(5), Some("A"), Some("071"), 2);
  }
}
