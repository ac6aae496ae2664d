/** The seat map of one bus (client/src/components/SeatLayout.jsx): seats
    1..40 in a four-column grid, each shown as booked, selected or available,
    with an aisle after the second seat of every row. */
module SeatLayout {
  import opened Schema

  /** `TOTAL_SEATS`: ten rows of four. */
  const TotalSeats: nat := 40

  /** The seats per grid row (`repeat(4, 1fr)`). */
  const Columns: nat := 4

  predicate Increasing(s: seq<int>)
  {
    forall i, j :: 0 <= i < j < |s| ==> s[i] < s[j]
  }

  /** `Array.from({ length: n }, (_, i) => i + 1)`: the numbers 1..n, each once, ascending. */
  function Range(n: nat): (s: seq<int>)
    ensures |s| == n && Increasing(s)
    ensures forall x :: x in s <==> 1 <= x <= n
  {
    var s := seq(n, i requires 0 <= i < n => i + 1);
    forall x | 1 <= x <= n ensures x in s {
      assert s[x - 1] == x;
    }
    s
  }

  /** The seats the layout draws, in drawing order. */
  function Seats(): (s: seq<int>)
    ensures |s| == TotalSeats && Increasing(s)
    ensures forall x :: x in s <==> 1 <= x <= TotalSeats
  {
    Range(TotalSeats)
  }

  datatype SeatStatus = Booked | Selected | Available

  /** `getSeatStatus`: booked takes priority over selected, selected over available. */
  function StatusOf(booked: seq<int>, selected: Option<int>, seat: int): (st: SeatStatus)
    ensures st == Booked <==> seat in booked
    ensures st == Selected <==> seat !in booked && selected == Some(seat)
    ensures st == Available <==> seat !in booked && selected != Some(seat)
  {
    if seat in booked then Booked
    else if selected == Some(seat) then Selected
    else Available
  }

  /** The seat handed to `onSelect` when a seat is clicked, or `None` when the
      click does nothing: booked seats ignore clicks, every other seat
      (selected or not) selects itself. */
  function Click(booked: seq<int>, selected: Option<int>, seat: int): (picked: Option<int>)
    ensures picked.Some? <==> seat !in booked
    ensures picked.Some? ==> picked.value == seat
  {
    if StatusOf(booked, selected, seat) != Booked then Some(seat) else None
  }

  /** After a click on a free seat, which becomes the selection, that seat
      is the only one drawn as selected, and every booked seat stays booked. */
  lemma ClickSelectsOnlyThatSeat(booked: seq<int>, selected: Option<int>, seat: int)
    requires Click(booked, selected, seat).Some?
    ensures forall s :: s in Seats() ==>
              (StatusOf(booked, Click(booked, selected, seat), s) == Selected <==> s == seat)
    ensures forall s :: s in booked ==> StatusOf(booked, Click(booked, selected, seat), s) == Booked
  {
  }

  /** JavaScript's `%`, whose result takes the sign of the dividend. */
  function JsRem(a: int, b: int): (r: int)
    requires b > 0
    ensures a >= 0 ==> 0 <= r < b
    ensures a < 0 ==> -b < r <= 0
    ensures a >= 0 ==> r == a % b
  {
    if a >= 0 then a % b else -((-a) % b)
  }

  /** Negating the dividend negates the remainder (truncating division). */
  lemma JsRemOdd(a: int, b: int)
    requires b > 0
    ensures JsRem(-a, b) == -JsRem(a, b)
  {
  }

  /** `seatNum % 4 === 3 || seatNum % 4 === 0`: for a real seat, the two
      columns right of the aisle. */
  function IsRightSide(seat: int): (right: bool)
    ensures 1 <= seat ==> (right <==> Column(seat) >= 3)
  {
    // both branches are the same test; the first only brings in RemOfColumn for the ensures
    if 1 <= seat then RemOfColumn(seat); JsRem(seat, 4) == 3 || JsRem(seat, 4) == 0 else
    JsRem(seat, 4) == 3 || JsRem(seat, 4) == 0
  }

  /** `seatNum % 4 === 2`: the seat carries the aisle margin on its right;
      for a real seat, exactly the second column. */
  function HasAisleMargin(seat: int): (margin: bool)
    ensures 1 <= seat ==> (margin <==> Column(seat) == 2)
  {
    // both branches are the same test; the first only brings in RemOfColumn for the ensures
    if 1 <= seat then RemOfColumn(seat); JsRem(seat, 4) == 2 else
    JsRem(seat, 4) == 2
  }

  /** Where the grid places a seat: the one at index `seat - 1` of `Seats()`
      goes to row `(seat - 1) / 4 + 1`, column `(seat - 1) % 4 + 1`. */
  function Column(seat: int): (c: int)
    requires 1 <= seat
    ensures 1 <= c <= Columns
  {
    (seat - 1) % Columns + 1
  }

  /** A seat's remainder by four is its column's, column 4 giving 0. */
  lemma RemOfColumn(seat: int)
    requires 1 <= seat
    ensures JsRem(seat, 4) == Column(seat) % 4
  {
    var q, r := (seat - 1) / 4, (seat - 1) % 4;
    assert seat == 4 * q + (r + 1);
    assert seat % 4 == (r + 1) % 4;
  }

  function Row(seat: int): int
    requires 1 <= seat
  {
    (seat - 1) / Columns + 1
  }

  /** The side and margin rules agree with the grid: a seat is on the right
      exactly when it sits in column 3 or 4, the aisle margin goes exactly to
      column 2, and the 40 seats fill rows 1 to 10. */
  lemma SeatGeometry(seat: int)
    requires 1 <= seat <= TotalSeats
    ensures IsRightSide(seat) <==> Column(seat) >= 3
    ensures HasAisleMargin(seat) <==> Column(seat) == 2
    ensures 1 <= Row(seat) <= TotalSeats / Columns
    ensures Seats()[(Row(seat) - 1) * Columns + Column(seat) - 1] == seat
  {
  }

  /** Every row reads left, left with the aisle, right, right. */
  lemma RowLayout(row: int)
    requires 1 <= row <= TotalSeats / Columns
    ensures !IsRightSide(4 * row - 3) && !HasAisleMargin(4 * row - 3)
    ensures !IsRightSide(4 * row - 2) && HasAisleMargin(4 * row - 2)
    ensures IsRightSide(4 * row - 1) && !HasAisleMargin(4 * row - 1)
    ensures IsRightSide(4 * row) && !HasAisleMargin(4 * row)
  {
  }
}
