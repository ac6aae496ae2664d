/** The computations of the admin dashboard (client/src/pages/AdminPage.jsx):
    which seats a booking may be moved to, the options of the seat selector,
    and the route status toggle with its optimistic list update. */
module AdminPage {
  import opened Schema
  import SeatLayout
  import opened Seqs

  /** `totalSeats`, the dashboard's own copy of the bus size. */
  const TotalSeats: nat := 40

  /** `allSeats.filter(seat => !booked.includes(seat) || seat === current)`
      over any list of seats: keeps, in order and each as often as in the
      input, exactly the free seats and the current one. */
  function KeepAvailable(seats: seq<int>, booked: seq<int>, current: int): (kept: seq<int>)
    ensures forall s :: s in kept <==> s in seats && (s !in booked || s == current)
    ensures |kept| <= |seats|
    ensures forall s :: multiset(kept)[s] == if s !in booked || s == current then multiset(seats)[s] else 0
    ensures IsSubsequence(kept, seats)
    decreases |seats|
  {
    if |seats| == 0 then []
    else
      var rest := KeepAvailable(seats[1..], booked, current);
      assert seats == [seats[0]] + seats[1..];
      if seats[0] !in booked || seats[0] == current then
        assert ([seats[0]] + rest)[1..] == rest;
        [seats[0]] + rest
      else rest
  }

  /** In an ascending list the first seat is below every later one. */
  lemma HeadBelowTail(seats: seq<int>)
    requires |seats| > 0 && SeatLayout.Increasing(seats)
    ensures forall x :: x in seats[1..] ==> seats[0] < x
  {
    forall x | x in seats[1..] ensures seats[0] < x {
      var i :| 0 <= i < |seats[1..]| && seats[1..][i] == x;
      assert seats[i + 1] == x;
    }
  }

  /** A seat below every seat of an ascending list can go in front of it. */
  lemma PrependIncreasing(head: int, rest: seq<int>)
    requires SeatLayout.Increasing(rest)
    requires forall x :: x in rest ==> head < x
    ensures SeatLayout.Increasing([head] + rest)
  {
    var kept := [head] + rest;
    forall i, j | 0 <= i < j < |kept| ensures kept[i] < kept[j] {
      if i == 0 {
        assert kept[j] == rest[j - 1] && rest[j - 1] in rest;
      } else {
        assert kept[i] == rest[i - 1] && kept[j] == rest[j - 1];
      }
    }
  }

  /** Filtering an ascending list leaves it ascending. */
  lemma {:induction false} KeepAvailableIncreasing(seats: seq<int>, booked: seq<int>, current: int)
    requires SeatLayout.Increasing(seats)
    ensures SeatLayout.Increasing(KeepAvailable(seats, booked, current))
    decreases |seats|
  {
    if |seats| > 0 {
      var rest := KeepAvailable(seats[1..], booked, current);
      assert SeatLayout.Increasing(seats[1..]);
      KeepAvailableIncreasing(seats[1..], booked, current);
      if seats[0] !in booked || seats[0] == current {
        HeadBelowTail(seats);
        PrependIncreasing(seats[0], rest);
      }
    }
  }

  /** `fetchAvailableSeats` once the booked seats of the route have arrived:
      seat `s` is offered exactly when it is one of the 40 and either free or
      the booking's own seat; the list ascends, and the current seat, when it
      is a real seat, is always offered although it is booked. */
  function AvailableSeats(booked: seq<int>, current: int): (available: seq<int>)
    ensures forall s :: s in available <==> 1 <= s <= TotalSeats && (s !in booked || s == current)
    ensures SeatLayout.Increasing(available)
    ensures 1 <= current <= TotalSeats ==> current in available
  {
    KeepAvailableIncreasing(SeatLayout.Range(TotalSeats), booked, current);
    KeepAvailable(SeatLayout.Range(TotalSeats), booked, current)
  }

  /** The `<option>`s of the seat selector: the available seats, then a
      fallback option for the current seat when it is not among them. */
  function SeatOptions(available: seq<int>, current: int): (options: seq<int>)
    ensures current in options
    ensures forall s :: s in options <==> s in available || s == current
    ensures |available| <= |options| && options[..|available|] == available
    ensures current in available ==> options == available
    ensures current !in available ==> |options| == |available| + 1
  {
    if current in available then available else available + [current]
  }

  /** Once availability has loaded for a real seat the fallback never shows;
      on the first edit, before any list has arrived (`availableSeats` starts
      as `[]`), the current seat is the only option. */
  lemma FallbackOnlyWhenMissing(booked: seq<int>, current: int)
    ensures 1 <= current <= TotalSeats ==> SeatOptions(AvailableSeats(booked, current), current) == AvailableSeats(booked, current)
    ensures SeatOptions([], current) == [current]
  {
  }

  /** `if (booking.route_id)` on a number: present and not zero. Every real
      route id (they start at 1) passes. */
  function Truthy(routeId: Option<int>): (t: bool)
    ensures routeId.Some? && routeId.value >= 1 ==> t
    ensures t ==> routeId.Some?
  {
    routeId.Some? && routeId.value != 0
  }

  /** `availableSeats` after `handleEditClick`: recomputed only when the
      booking carries a route id and the seats of that route arrive
      (`fetched`); otherwise the previous list is kept. */
  function SeatsAfterEditClick(previous: seq<int>, routeId: Option<int>, fetched: Option<seq<int>>,
                               current: int): (seats: seq<int>)
    ensures !Truthy(routeId) || fetched.None? ==> seats == previous
    ensures Truthy(routeId) && fetched.Some? ==>
              forall s :: s in seats <==> 1 <= s <= TotalSeats && (s !in fetched.value || s == current)
  {
    if Truthy(routeId) && fetched.Some? then AvailableSeats(fetched.value, current) else previous
  }

  /** `availableSeats` is never cleared: on a later edit, until the new
      route's seats arrive (or when the booking has no route id), the selector
      offers the list left by the previous edit, plus the current seat. */
  lemma StaleOptionsUntilFetched(previous: seq<int>, routeId: Option<int>, current: int)
    ensures SeatOptions(SeatsAfterEditClick(previous, routeId, None, current), current)
         == SeatOptions(previous, current)
    ensures forall s :: s in SeatOptions(SeatsAfterEditClick(previous, routeId, None, current), current)
              <==> s in previous || s == current
  {
  }

  /** Every seat the dashboard offers for a booking passes the server's
      UNIQUE(route_id, seat_number) check: when `booked` is what the server
      reports for the booking's route, moving the booking to any offered seat
      can not conflict. */
  lemma OfferedSeatNeverConflicts(bookings: map<int, Booking>, id: int, booked: seq<int>, seat: int)
    requires SeatsDistinct(bookings) && id in bookings
    requires forall n :: n in booked <==> n in SeatsOn(bookings, bookings[id].routeId)
    requires seat in AvailableSeats(booked, bookings[id].seatNumber)
    ensures !SeatTaken(bookings, id, bookings[id].routeId, seat)
  {
    var route := bookings[id].routeId;
    if seat == bookings[id].seatNumber {
      SeatHeldOnce(bookings, id);
    } else {
      assert seat !in SeatsOn(bookings, route);
      forall k | k in bookings && bookings[k].routeId == route
        ensures bookings[k].seatNumber != seat
      {
        assert bookings[k].seatNumber in SeatsOn(bookings, route);
      }
    }
  }

  /** `toggleStatus`'s new status: a cancelled route is rescheduled, any
      other route (a NULL status included) is cancelled. */
  function ToggledStatus(status: Option<string>): (next: string)
    ensures next == Scheduled <==> status == Some(Cancelled)
    ensures next == Cancelled <==> status != Some(Cancelled)
  {
    if status == Some(Cancelled) then Scheduled else Cancelled
  }

  /** Toggling twice restores either of the two statuses the application
      writes; a NULL status becomes `scheduled` after two toggles. */
  lemma ToggleTwice(status: Option<string>)
    ensures status == Some(Scheduled) || status == Some(Cancelled) ==>
              Some(ToggledStatus(Some(ToggledStatus(status)))) == status
    ensures status.None? ==> ToggledStatus(Some(ToggledStatus(status))) == Scheduled
  {
  }

  /** `routes.map(r => r.id === route.id ? { ...r, status: newStatus } : r)`. */
  function ApplyStatus(routes: seq<Route>, id: int, status: string): (updated: seq<Route>)
    ensures |updated| == |routes|
    ensures forall i :: 0 <= i < |routes| ==> updated[i].id == routes[i].id
    ensures forall i :: 0 <= i < |routes| && routes[i].id != id ==> updated[i] == routes[i]
    ensures forall i :: 0 <= i < |routes| && routes[i].id == id ==>
              updated[i] == routes[i].(status := Some(status))
  {
    seq(|routes|, i requires 0 <= i < |routes| =>
      if routes[i].id == id then routes[i].(status := Some(status)) else routes[i])
  }

  /** The optimistic update shows what the server stores: when the list
      mirrors the table, applying the new status to the list gives, row by
      row, the table after `UPDATE routes SET status = ? WHERE id = ?`. */
  lemma OptimisticUpdateMatchesServer(table: map<int, Route>, routes: seq<Route>, id: int, status: string)
    requires forall i :: 0 <= i < |routes| ==> routes[i].id in table && table[routes[i].id] == routes[i]
    ensures var after := WithStatus(table, id, Some(status));
            forall i :: 0 <= i < |routes| ==>
              routes[i].id in after && ApplyStatus(routes, id, status)[i] == after[routes[i].id]
  {
  }
}
