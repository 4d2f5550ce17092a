/** The reservation component's state and its one state-changing
    operation, the booking request. */
module Reservation {
  import opened Seats
  import opened Allocation

  /** The coach keeps its shape, and the last booking lists distinct seat
      numbers in ascending order, each of a booked seat. */
  ghost predicate Consistent(seats: seq<Seat>, bookedSeats: seq<int>)
  {
    && Layout(seats)
    && Ascending(bookedSeats)
    && forall k :: 0 <= k < |bookedSeats| ==>
         1 <= bookedSeats[k] <= TotalSeats && seats[bookedSeats[k] - 1].isBooked
  }

  /** An accepted request leaves the component consistent, with exactly
      `n` more seats booked. */
  lemma AcceptedKeepsConsistent(seats: seq<Seat>, n: int)
    requires Layout(seats)
    requires Allocate(seats, n).Ok?
    ensures Consistent(MarkBooked(seats, Allocate(seats, n).value), Allocate(seats, n).value)
    ensures BookedCount(MarkBooked(seats, Allocate(seats, n).value)) == BookedCount(seats) + n
  {
    var ids := Allocate(seats, n).value;
    var after := MarkBooked(seats, ids);
    LayoutIdsAscending(seats);
    AllocateBooksExactly(seats, n);
    forall m | 0 <= m < |ids|
      ensures 1 <= ids[m] <= TotalSeats && after[ids[m] - 1].isBooked
    {
      var j :| 0 <= j < |seats| && seats[j].id == ids[m] && !seats[j].isBooked;
      assert j == ids[m] - 1;
    }
  }

  /** Picks the seats for a request the checks have let through: files the
      free seats under their rows, scans the rows in ascending order for the
      first with `n` free seats, and otherwise takes the first `n` free
      seats. */
  method PickSeats(available: seq<Seat>, n: int) returns (booked: seq<int>)
    requires 1 <= n <= |available|
    ensures booked == Ids(Choose(available, n))
  {
    // file every free seat under its row
    var rows: seq<RowGroup> := [];
    var i := 0;
    while i < |available|
      invariant 0 <= i <= |available|
      invariant rows == GroupByRow(available[..i])
    {
      assert available[..i + 1][..i] == available[..i];
      rows := AddToRow(rows, available[i]);
      i := i + 1;
    }
    assert available[..i] == available;

    // the first row with enough free seats
    booked := [];
    var k := 0;
    while k < |rows|
      invariant 0 <= k <= |rows|
      invariant booked == []
      invariant forall j :: 0 <= j < k ==> |rows[j].seats| < n
    {
      if |rows[k].seats| >= n {
        assert FirstFit(rows, n) == Some(k);
        booked := Ids(rows[k].seats[..n]);
        break;
      }
      k := k + 1;
    }

    // no row has enough: the first free seats overall
    if |booked| == 0 {
      assert FirstFit(rows, n).None?;
      booked := Ids(available[..n]);
    }
  }

  class SeatReservation {
    /** The coach, replaced as a whole after each successful booking. */
    var seats: seq<Seat>
    /** The message of the last refused request; None when it succeeded. */
    var error: Option<BookingError>
    /** The seat numbers booked by the last successful request. */
    var bookedSeats: seq<int>

    ghost predicate Valid()
      reads this
    {
      Consistent(seats, bookedSeats)
    }

    constructor ()
      ensures Valid()
      ensures seats == InitialSeats() && error == None && bookedSeats == []
    {
      seats := InitialSeats();
      error := None;
      bookedSeats := [];
    }

    /** Handles one request for `seatCount` seats: refuses it, leaving the
        seats and the last booking alone, or books the seats `Allocate`
        chooses and makes them the last booking. */
    method BookSeats(seatCount: int)
      requires Valid()
      modifies this
      ensures Valid()
      ensures match Allocate(old(seats), seatCount)
        case Err(e) => error == Some(e) && seats == old(seats) && bookedSeats == old(bookedSeats)
        case Ok(ids) => error == None && seats == MarkBooked(old(seats), ids) && bookedSeats == ids
      ensures error == None ==> BookedCount(seats) == old(BookedCount(seats)) + seatCount
      ensures BookedCount(seats) <= TotalSeats
    {
      error := None;
      if seatCount < MinPerBooking || seatCount > MaxPerBooking {
        error := Some(CountOutOfRange);
        return;
      }
      var available := FreeSeats(seats);
      if |available| < seatCount {
        error := Some(NotEnoughSeats);
        return;
      }

      var booked := PickSeats(available, seatCount);
      assert Allocate(old(seats), seatCount) == Ok(booked);
      AcceptedKeepsConsistent(seats, seatCount);
      seats := MarkBooked(seats, booked);
      bookedSeats := booked;
    }
  }
}
