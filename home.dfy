/** The route search and the booking guard of the home page
    (client/src/pages/Home.jsx). */
module Home {
  import opened Schema
  import Text
  import AdminPage
  import opened Seqs

  /** The predicate of `filteredRoutes`: the date matches exactly, origin and
      destination contain the search strings, both sides lower-cased. */
  function Matches(r: Route, date: string, origin: string, destination: string): (m: bool)
    ensures m <==> && r.date == date
                   && (exists i :: Text.OccursAt(Text.ToLower(r.origin), Text.ToLower(origin), i))
                   && (exists i :: Text.OccursAt(Text.ToLower(r.destination), Text.ToLower(destination), i))
  {
    Text.ContainsAt(Text.ToLower(r.origin), Text.ToLower(origin));
    Text.ContainsAt(Text.ToLower(r.destination), Text.ToLower(destination));
    && r.date == date
    && Text.Contains(Text.ToLower(r.origin), Text.ToLower(origin))
    && Text.Contains(Text.ToLower(r.destination), Text.ToLower(destination))
  }

  /** `routes.filter(...)`: exactly the matching routes, each as often as in
      the input, in their original order. */
  function FilterRoutes(routes: seq<Route>, date: string, origin: string, destination: string)
    : (shown: seq<Route>)
    ensures forall r :: r in shown <==> r in routes && Matches(r, date, origin, destination)
    ensures forall r :: multiset(shown)[r] == if Matches(r, date, origin, destination) then multiset(routes)[r] else 0
    ensures IsSubsequence(shown, routes)
    decreases |routes|
  {
    if |routes| == 0 then []
    else
      var rest := FilterRoutes(routes[1..], date, origin, destination);
      assert routes == [routes[0]] + routes[1..];
      if Matches(routes[0], date, origin, destination) then
        assert ([routes[0]] + rest)[1..] == rest;
        [routes[0]] + rest
      else rest
  }

  /** The routes on one date, each as often as in the input, in their original order. */
  function RoutesOn(routes: seq<Route>, date: string): (onDate: seq<Route>)
    ensures forall r :: r in onDate <==> r in routes && r.date == date
    ensures forall r :: multiset(onDate)[r] == if r.date == date then multiset(routes)[r] else 0
    ensures IsSubsequence(onDate, routes)
    decreases |routes|
  {
    if |routes| == 0 then []
    else
      var rest := RoutesOn(routes[1..], date);
      assert routes == [routes[0]] + routes[1..];
      if routes[0].date == date then
        assert ([routes[0]] + rest)[1..] == rest;
        [routes[0]] + rest
      else rest
  }

  /** With both search boxes empty the page lists exactly the routes on the
      selected date, in the order the server sent them. */
  lemma {:induction false} EmptySearchShowsDate(routes: seq<Route>, date: string)
    ensures FilterRoutes(routes, date, "", "") == RoutesOn(routes, date)
    decreases |routes|
  {
    if |routes| > 0 {
      EmptySearchShowsDate(routes[1..], date);
      assert Text.ToLower("") == "";
      Text.ContainsEmpty(Text.ToLower(routes[0].origin));
      Text.ContainsEmpty(Text.ToLower(routes[0].destination));
    }
  }

  /** The search ignores the case of what is typed: lower-casing the search
      strings first changes nothing. */
  lemma {:induction false} SearchIgnoresCase(routes: seq<Route>, date: string, origin: string, destination: string)
    ensures FilterRoutes(routes, date, Text.ToLower(origin), Text.ToLower(destination))
         == FilterRoutes(routes, date, origin, destination)
    decreases |routes|
  {
    Text.ToLowerIdempotent(origin);
    Text.ToLowerIdempotent(destination);
    if |routes| > 0 {
      SearchIgnoresCase(routes[1..], date, origin, destination);
    }
  }

  /** What the card of a route offers: a disabled "Unavailable" button, or a
      link to the seat selection of that route. */
  datatype RouteAction = Unavailable | SelectSeats(routeId: int)

  /** Only a route whose status is exactly `cancelled` is closed to booking;
      a NULL or any other status links to `/book/:id`. */
  function ActionFor(r: Route): (action: RouteAction)
    ensures action == Unavailable <==> r.status == Some(Cancelled)
    ensures action != Unavailable ==> action == SelectSeats(r.id)
  {
    if r.status == Some(Cancelled) then Unavailable else SelectSeats(r.id)
  }

  /** The admin toggle flips whether the home page lets a route be booked. */
  lemma ToggleFlipsBookability(r: Route)
    ensures ActionFor(r.(status := Some(AdminPage.ToggledStatus(r.status)))) == Unavailable
        <==> ActionFor(r) != Unavailable
  {
  }
}
