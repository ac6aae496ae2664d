/** Start-up of the database (server/database.js): the admin account and the
    route timetable that are inserted when they are missing. The calendar is
    an input: `days` holds the seven date strings from today onwards. */
module Seed {
  import opened Schema
  import opened Store

  const AdminUsername: string := "admin"
  const AdminPassword: string := "admin123"

  /** How many days ahead the timetable is seeded, today included. */
  const SeedDays: nat := 7

  /** One daily departure of the demo timetable. */
  datatype Pattern = Pattern(origin: string, destination: string, departure: string,
                             arrival: string, price: int)

  const Patterns: seq<Pattern> := [
    Pattern("Colombo", "Kandy", "08:00", "11:00", 1500),
    Pattern("Kandy", "Colombo", "14:00", "17:00", 1500),
    Pattern("Galle", "Matara", "09:00", "10:30", 500),
    Pattern("Colombo", "Jaffna", "22:00", "06:00", 3500),
    Pattern("Jaffna", "Colombo", "08:00", "16:00", 3500)
  ]

  /** One route the seeding inserts: a pattern on a date. */
  datatype Planned = Planned(pattern: Pattern, date: string)

  /** The routes inserted for one date, in pattern order. */
  function DayPlan(date: string): (plan: seq<Planned>)
    ensures |plan| == |Patterns|
    ensures forall j :: 0 <= j < |plan| ==> plan[j] == Planned(Patterns[j], date)
  {
    seq(|Patterns|, j requires 0 <= j < |Patterns| => Planned(Patterns[j], date))
  }

  /** The routes inserted for a run of dates: day after day, each day's patterns in order. */
  function SeedPlan(days: seq<string>): seq<Planned>
    decreases |days|
  {
    if |days| == 0 then [] else SeedPlan(days[..|days| - 1]) + DayPlan(days[|days| - 1])
  }

  /** Entry `|Patterns| * i + j` of the plan is pattern `j` on day `i`, and
      there is nothing else: every pattern runs once on every day. */
  lemma {:induction false} SeedPlanAt(days: seq<string>)
    ensures |SeedPlan(days)| == |Patterns| * |days|
    ensures forall i, j :: 0 <= i < |days| && 0 <= j < |Patterns| ==>
              SeedPlan(days)[|Patterns| * i + j] == Planned(Patterns[j], days[i])
    decreases |days|
  {
    if |days| > 0 {
      var init := days[..|days| - 1];
      SeedPlanAt(init);
      forall i, j | 0 <= i < |days| && 0 <= j < |Patterns|
        ensures SeedPlan(days)[|Patterns| * i + j] == Planned(Patterns[j], days[i])
      {
        if i < |days| - 1 {
          assert |Patterns| * i + j < |Patterns| * |init|;
          assert days[i] == init[i];
        } else {
          assert |Patterns| * i + j == |SeedPlan(init)| + j;
        }
      }
    }
  }

  /** The row a planned route becomes when it is inserted with id `id`. */
  function RowOf(id: int, p: Planned): Route
  {
    Route(id, p.pattern.origin, p.pattern.destination, p.date, p.pattern.departure,
          p.pattern.arrival, p.pattern.price, Some(Scheduled))
  }

  /** The table after the routes of `plan` are inserted one after the other
      over `base`, the first one getting id `start`. */
  function Seeded(base: map<int, Route>, start: int, plan: seq<Planned>): map<int, Route>
    decreases |plan|
  {
    if |plan| == 0 then base
    else Seeded(base, start, plan[..|plan| - 1])[start + |plan| - 1 := RowOf(start + |plan| - 1, plan[|plan| - 1])]
  }

  /** Inserting one more planned route puts one more row at the next id. */
  lemma SeededSnoc(base: map<int, Route>, start: int, plan: seq<Planned>, p: Planned)
    ensures Seeded(base, start, plan + [p]) == Seeded(base, start, plan)[start + |plan| := RowOf(start + |plan|, p)]
  {
    assert (plan + [p])[..|plan|] == plan;
  }

  /** Over a table whose ids are all below `start`, seeding keeps every old
      row and adds the planned routes under the consecutive ids from `start`,
      each row being its plan entry. */
  lemma {:induction false} SeededContents(base: map<int, Route>, start: int, plan: seq<Planned>)
    requires forall k :: k in base ==> k < start
    ensures forall k :: k in Seeded(base, start, plan) <==> k in base || start <= k < start + |plan|
    ensures forall k :: k in base ==> Seeded(base, start, plan)[k] == base[k]
    ensures forall k :: k in Seeded(base, start, plan) && k >= start ==>
              Seeded(base, start, plan)[k] == RowOf(k, plan[k - start])
    decreases |plan|
  {
    if |plan| > 0 {
      var init := plan[..|plan| - 1];
      SeededContents(base, start, init);
      var m := Seeded(base, start, init);
      forall k | k in m && k >= start
        ensures plan[k - start] == init[k - start]
      {
      }
    }
  }

  /** Seeding an empty table with a plan gives one row per planned route. */
  lemma {:induction false} SeededSize(start: int, plan: seq<Planned>)
    ensures |Seeded(map[], start, plan)| == |plan|
    decreases |plan|
  {
    if |plan| > 0 {
      var init := plan[..|plan| - 1];
      SeededSize(start, init);
      SeededContents(map[], start, init);
      assert start + |plan| - 1 !in Seeded(map[], start, init);
    }
  }

  /** `SELECT count(*) FROM routes WHERE date = ?`: zero exactly when no
      route is dated `date`. */
  function CountOnDate(routes: map<int, Route>, date: string): (count: nat)
    ensures count == 0 <==> forall k :: k in routes ==> routes[k].date != date
  {
    var onDate := set k | k in routes && routes[k].date == date;
    assert (forall k :: k in routes ==> routes[k].date != date) ==> onDate == {};
    assert onDate == {} ==> forall k :: k in routes ==> routes[k].date != date by {
      forall k | k in routes && routes[k].date == date ensures k in onDate { }
    }
    |onDate|
  }

  /** A route dated `date` makes the count positive. */
  lemma CountOnDatePositive(routes: map<int, Route>, date: string, id: int)
    requires id in routes && routes[id].date == date
    ensures CountOnDate(routes, date) > 0
  {
    var onDate := set k | k in routes && routes[k].date == date;
    assert {id} <= onDate;
  }

  /** Seeds the admin account when no user is called `admin`. Afterwards
      exactly one user has that name; a stored admin is never touched, even
      when its password differs. */
  method SeedAdmin(db: BookingService)
    requires db.Valid()
    modifies db
    ensures db.Valid()
    ensures db.routes == old(db.routes) && db.bookings == old(db.bookings)
    ensures db.nextRouteId == old(db.nextRouteId) && db.nextBookingId == old(db.nextBookingId)
    ensures UsernameTaken(old(db.users), AdminUsername) ==>
              db.users == old(db.users) && db.nextUserId == old(db.nextUserId)
    ensures !UsernameTaken(old(db.users), AdminUsername) ==>
              && db.users == old(db.users)[old(db.nextUserId) := User(old(db.nextUserId), AdminUsername, AdminPassword)]
              && db.nextUserId == old(db.nextUserId) + 1
    ensures |set k | k in db.users && db.users[k].username == AdminUsername| == 1
  {
    if !UsernameTaken(db.users, AdminUsername) {
      var r := db.InsertUser(AdminUsername, AdminPassword);
      assert db.users[old(db.nextUserId)].username == AdminUsername;
    }
    SingleHolder(db.users, AdminUsername);
  }

  /** After the plan for a run of dates starting today is inserted over a
      table, today has routes: the very first insert is dated today. */
  lemma SeededToday(base: map<int, Route>, start: int, days: seq<string>)
    requires forall k :: k in base ==> k < start
    requires |days| > 0
    ensures CountOnDate(Seeded(base, start, SeedPlan(days)), days[0]) > 0
  {
    var plan := SeedPlan(days);
    SeedPlanAt(days);
    assert plan[0] == Planned(Patterns[0], days[0]) by {
      assert |Patterns| * 0 + 0 == 0;
    }
    SeededContents(base, start, plan);
    var table := Seeded(base, start, plan);
    assert start in table && table[start] == RowOf(start, plan[0]);
    CountOnDatePositive(table, days[0], start);
  }

  /** The first `j + 1` routes of a day are its first `j` and pattern `j`;
      all of them are the whole day. */
  lemma DayPlanStep(date: string, j: int)
    requires 0 <= j <= |Patterns|
    ensures j < |Patterns| ==> DayPlan(date)[..j + 1] == DayPlan(date)[..j] + [Planned(Patterns[j], date)]
    ensures j == |Patterns| ==> DayPlan(date)[..j] == DayPlan(date)
  {
  }

  /** `routePatterns.forEach(...)` for one date: the five routes of that day,
      in pattern order, at the next five ids. `done` is what was seeded
      before over `base` from id `start`. */
  method SeedDay(db: BookingService, date: string, ghost base: map<int, Route>, ghost start: int,
                 ghost done: seq<Planned>)
    requires db.Valid()
    requires db.routes == Seeded(base, start, done) && db.nextRouteId == start + |done|
    modifies db
    ensures db.Valid()
    ensures db.users == old(db.users) && db.bookings == old(db.bookings)
    ensures db.nextUserId == old(db.nextUserId) && db.nextBookingId == old(db.nextBookingId)
    ensures db.routes == Seeded(base, start, done + DayPlan(date))
    ensures db.nextRouteId == start + |done| + |Patterns|
  {
    ghost var now := done;
    for j := 0 to |Patterns|
      invariant db.Valid()
      invariant db.users == old(db.users) && db.bookings == old(db.bookings)
      invariant db.nextUserId == old(db.nextUserId) && db.nextBookingId == old(db.nextBookingId)
      invariant now == done + DayPlan(date)[..j]
      invariant db.routes == Seeded(base, start, now)
      invariant db.nextRouteId == start + |now|
    {
      var p := Patterns[j];
      var id := db.InsertRoute(p.origin, p.destination, date, p.departure, p.arrival, p.price, Some(Scheduled));
      SeededSnoc(base, start, now, Planned(p, date));
      DayPlanStep(date, j);
      now := now + [Planned(p, date)];
    }
    DayPlanStep(date, |Patterns|);
  }

  /** Seeds the timetable when no route is dated today (`days[0]`): for each
      of the seven days, each pattern in order, one scheduled route. When
      today already has routes nothing is inserted. Afterwards today always
      has routes, so seeding again on the same day is a no-op. */
  method SeedRoutes(db: BookingService, days: seq<string>)
    requires db.Valid() && |days| == SeedDays
    modifies db
    ensures db.Valid()
    ensures db.users == old(db.users) && db.bookings == old(db.bookings)
    ensures db.nextUserId == old(db.nextUserId) && db.nextBookingId == old(db.nextBookingId)
    ensures CountOnDate(old(db.routes), days[0]) == 0 ==>
              && db.routes == Seeded(old(db.routes), old(db.nextRouteId), SeedPlan(days))
              && db.nextRouteId == old(db.nextRouteId) + |Patterns| * SeedDays
    ensures CountOnDate(old(db.routes), days[0]) != 0 ==>
              db.routes == old(db.routes) && db.nextRouteId == old(db.nextRouteId)
    ensures CountOnDate(db.routes, days[0]) > 0
  {
    if CountOnDate(db.routes, days[0]) != 0 {
      return;
    }
    var start := db.nextRouteId;
    var base := db.routes;
    ghost var done: seq<Planned> := [];
    for i := 0 to SeedDays
      invariant db.Valid()
      invariant db.users == old(db.users) && db.bookings == old(db.bookings)
      invariant db.nextUserId == old(db.nextUserId) && db.nextBookingId == old(db.nextBookingId)
      invariant done == SeedPlan(days[..i])
      invariant db.routes == Seeded(base, start, done)
      invariant db.nextRouteId == start + |done|
    {
      SeedDay(db, days[i], base, start, done);
      assert days[..i + 1][..i] == days[..i];
      done := done + DayPlan(days[i]);
    }
    assert days[..SeedDays] == days;
    SeedPlanAt(days);
    SeededToday(base, start, days);
  }

  /** `initDb` on an empty database file: create the tables, seed the admin,
      seed the timetable. */
  method InitDb(days: seq<string>) returns (db: BookingService)
    requires |days| == SeedDays
    ensures fresh(db) && db.Valid()
    ensures db.users == map[1 := User(1, AdminUsername, AdminPassword)] && db.nextUserId == 2
    ensures db.routes == Seeded(map[], 1, SeedPlan(days)) && CountOnDate(db.routes, days[0]) > 0
    ensures |db.routes| == |Patterns| * SeedDays && db.nextRouteId == 1 + |Patterns| * SeedDays
    ensures db.bookings == map[] && db.nextBookingId == 1
  {
    db := new BookingService();
    SeedAdmin(db);
    assert CountOnDate(db.routes, days[0]) == 0 by {
      assert (set k | k in db.routes && db.routes[k].date == days[0]) == {};
    }
    SeedRoutes(db, days);
    SeedPlanAt(days);
    SeededSize(1, SeedPlan(days));
  }

  /** Restarting the server runs `initDb` over the existing file: the tables
      are kept, and both seeds check before they insert. A missing admin is
      added at the next user id; a day without routes gets the whole plan at
      the next route ids; afterwards there is one admin and today has routes. */
  method Restart(db: BookingService, days: seq<string>)
    requires db.Valid() && |days| == SeedDays
    modifies db
    ensures db.Valid()
    ensures db.bookings == old(db.bookings) && db.nextBookingId == old(db.nextBookingId)
    ensures UsernameTaken(old(db.users), AdminUsername) ==>
              db.users == old(db.users) && db.nextUserId == old(db.nextUserId)
    ensures !UsernameTaken(old(db.users), AdminUsername) ==>
              && db.users == old(db.users)[old(db.nextUserId) := User(old(db.nextUserId), AdminUsername, AdminPassword)]
              && db.nextUserId == old(db.nextUserId) + 1
    ensures |set k | k in db.users && db.users[k].username == AdminUsername| == 1
    ensures CountOnDate(old(db.routes), days[0]) == 0 ==>
              && db.routes == Seeded(old(db.routes), old(db.nextRouteId), SeedPlan(days))
              && db.nextRouteId == old(db.nextRouteId) + |Patterns| * SeedDays
    ensures CountOnDate(old(db.routes), days[0]) != 0 ==>
              db.routes == old(db.routes) && db.nextRouteId == old(db.nextRouteId)
    ensures CountOnDate(db.routes, days[0]) > 0
  {
    SeedAdmin(db);
    SeedRoutes(db, days);
  }

  /** Starting twice on the same day seeds once: the second start changes nothing. */
  method StartTwiceSameDay(days: seq<string>) returns (db: BookingService)
    requires |days| == SeedDays
    ensures db.Valid()
    ensures db.users == map[1 := User(1, AdminUsername, AdminPassword)]
    ensures db.routes == Seeded(map[], 1, SeedPlan(days)) && db.bookings == map[]
  {
    db := InitDb(days);
    assert db.users[1].username == AdminUsername;
    Restart(db, days);
  }
}
