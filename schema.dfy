/** The three tables that the server creates at start-up (users, routes,
    bookings), their rows, and the constraints SQLite enforces on them:
    NOT NULL columns are the non-option fields, `status` is the one nullable
    column a handler writes (the nullable `booking_date` is always filled by
    its CURRENT_TIMESTAMP default), and the two UNIQUE constraints are the
    predicates below. */
module Schema {

  datatype Option<T> = None | Some(value: T)

  /** The two status values the application writes. */
  const Scheduled: string := "scheduled"
  const Cancelled: string := "cancelled"

  /** A row of `users`; the password is kept exactly as it was sent. */
  datatype User = User(id: int, username: string, password: string)

  /** A row of `routes`. `price` stands for the REAL column; `status` may be NULL. */
  datatype Route = Route(id: int, origin: string, destination: string, date: string,
                         departureTime: string, arrivalTime: string, price: int,
                         status: Option<string>)

  /** A row of `bookings`. `bookingDate` stands for the CURRENT_TIMESTAMP default. */
  datatype Booking = Booking(id: int, routeId: int, seatNumber: int, passengerName: string,
                             passengerPhone: string, bookingDate: int)

  // ---- users.username UNIQUE -------------------------------------------------------

  /** No two rows of `users` share a username. */
  ghost predicate UsernamesUnique(users: map<int, User>)
  {
    forall a, b :: a in users && b in users && users[a].username == users[b].username ==> a == b
  }

  /** Some row of `users` already has this username. */
  predicate UsernameTaken(users: map<int, User>, name: string)
  {
    exists k :: k in users && users[k].username == name
  }

  /** Some row of `users` matches both the username and the password. */
  predicate CredentialsMatch(users: map<int, User>, name: string, password: string)
  {
    exists k :: k in users && users[k].username == name && users[k].password == password
  }

  /** Inserting a user at a fresh key keeps usernames unique exactly when
      nobody holds that username yet: the UNIQUE check rejects no more and no
      fewer inserts than needed. */
  lemma UserInsertKeepsUnique(users: map<int, User>, self: int, row: User)
    requires UsernamesUnique(users) && self !in users
    ensures UsernamesUnique(users[self := row]) <==> !UsernameTaken(users, row.username)
  {
    if UsernameTaken(users, row.username) {
      var k :| k in users && users[k].username == row.username;
      assert users[self := row][k].username == users[self := row][self].username;
    }
  }

  /** With unique usernames, a taken username is held by exactly one row. */
  lemma {:induction false} SingleHolder(users: map<int, User>, name: string)
    requires UsernamesUnique(users) && UsernameTaken(users, name)
    ensures |set k | k in users && users[k].username == name| == 1
  {
    var k :| k in users && users[k].username == name;
    forall j | j in users && users[j].username == name
      ensures j == k
    {
      assert users[j].username == users[k].username;
    }
    assert (set j | j in users && users[j].username == name) == {k};
  }

  // ---- bookings UNIQUE(route_id, seat_number) --------------------------------------

  /** For every route, the booked seat numbers are pairwise distinct. */
  ghost predicate SeatsDistinct(bookings: map<int, Booking>)
  {
    forall a, b ::
      (a in bookings && b in bookings &&
       bookings[a].routeId == bookings[b].routeId &&
       bookings[a].seatNumber == bookings[b].seatNumber) ==> a == b
  }

  /** With distinct seats, no other booking on the same route holds the seat of booking `id`. */
  lemma SeatHeldOnce(bookings: map<int, Booking>, id: int)
    requires SeatsDistinct(bookings) && id in bookings
    ensures !SeatTaken(bookings, id, bookings[id].routeId, bookings[id].seatNumber)
  {
  }

  /** A row other than `self` already holds `seat` on `route`: writing that
      pair at key `self` fails the UNIQUE(route_id, seat_number) check. */
  predicate SeatTaken(bookings: map<int, Booking>, self: int, route: int, seat: int)
  {
    exists k :: k in bookings && k != self && bookings[k].routeId == route && bookings[k].seatNumber == seat
  }

  /** The seat numbers booked on one route. */
  function SeatsOn(bookings: map<int, Booking>, route: int): set<int>
  {
    set k | k in bookings && bookings[k].routeId == route :: bookings[k].seatNumber
  }

  /** Writing a row at key `self` (an insert or an update) keeps the seats
      distinct exactly when the UNIQUE check lets it through. */
  lemma SeatWriteKeepsDistinct(bookings: map<int, Booking>, self: int, row: Booking)
    requires SeatsDistinct(bookings)
    ensures SeatsDistinct(bookings[self := row]) <==> !SeatTaken(bookings, self, row.routeId, row.seatNumber)
  {
    var after := bookings[self := row];
    if SeatTaken(bookings, self, row.routeId, row.seatNumber) {
      var k :| k in bookings && k != self && bookings[k].routeId == row.routeId && bookings[k].seatNumber == row.seatNumber;
      assert after[k].routeId == after[self].routeId && after[k].seatNumber == after[self].seatNumber;
    }
  }

  /** For a key not yet in the table, the UNIQUE check fails exactly when the
      seat already shows up among the route's booked seats. */
  lemma SeatTakenIffBooked(bookings: map<int, Booking>, self: int, route: int, seat: int)
    requires self !in bookings
    ensures SeatTaken(bookings, self, route, seat) <==> seat in SeatsOn(bookings, route)
  {
    if seat in SeatsOn(bookings, route) {
      var k :| k in bookings && bookings[k].routeId == route && bookings[k].seatNumber == seat;
      assert k != self;
    }
  }

  /** Booked seats after writing a row at key `self`: the row's seat joins
      the seats of every other row, on its own route only. */
  lemma SeatsOnAfterWrite(bookings: map<int, Booking>, self: int, row: Booking, route: int)
    ensures SeatsOn(bookings[self := row], route)
         == SeatsOn(bookings - {self}, route) + (if row.routeId == route then {row.seatNumber} else {})
  {
    var after := bookings[self := row];
    var rest := bookings - {self};
    var extra: set<int> := if row.routeId == route then {row.seatNumber} else {};
    forall n | n in SeatsOn(after, route)
      ensures n in SeatsOn(rest, route) + extra
    {
      var k :| k in after && after[k].routeId == route && after[k].seatNumber == n;
      if k != self {
        assert k in rest && rest[k] == after[k];
      }
    }
    forall n | n in SeatsOn(rest, route) + extra
      ensures n in SeatsOn(after, route)
    {
      if n in SeatsOn(rest, route) {
        var k :| k in rest && rest[k].routeId == route && rest[k].seatNumber == n;
        assert k in after && after[k] == rest[k];
      } else {
        assert self in after && after[self].routeId == route && after[self].seatNumber == n;
      }
    }
  }

  /** Deleting a booking frees exactly its own seat on its own route; since
      seats are distinct no other row still holds that seat. */
  lemma SeatsOnAfterDelete(bookings: map<int, Booking>, id: int, route: int)
    requires SeatsDistinct(bookings) && id in bookings
    ensures SeatsOn(bookings - {id}, route)
         == if bookings[id].routeId == route then SeatsOn(bookings, route) - {bookings[id].seatNumber}
            else SeatsOn(bookings, route)
  {
    var rest := bookings - {id};
    forall n | n in SeatsOn(rest, route)
      ensures n in SeatsOn(bookings, route)
      ensures bookings[id].routeId == route ==> n != bookings[id].seatNumber
    {
      var k :| k in rest && rest[k].routeId == route && rest[k].seatNumber == n;
      assert k in bookings && bookings[k] == rest[k];
    }
    forall n | n in SeatsOn(bookings, route) && !(bookings[id].routeId == route && n == bookings[id].seatNumber)
      ensures n in SeatsOn(rest, route)
    {
      var k :| k in bookings && bookings[k].routeId == route && bookings[k].seatNumber == n;
      assert k != id;
      assert k in rest && rest[k] == bookings[k];
    }
  }

  // ---- routes: status updates ------------------------------------------------------

  /** `UPDATE routes SET status = ? WHERE id = ?` on the table as a value. */
  function WithStatus(routes: map<int, Route>, id: int, status: Option<string>): (after: map<int, Route>)
    ensures after.Keys == routes.Keys
    ensures forall k :: k in routes && k != id ==> after[k] == routes[k]
    ensures id in routes ==> after[id] == routes[id].(status := status)
  {
    if id in routes then routes[id := routes[id].(status := status)] else routes
  }
}
