# Train seat reservation: the seat allocator

This project models the booking logic of a train seat-reservation widget. The coach
has 80 seats numbered 1..80, seven to a row (row = ceil(id / 7), so row 12 holds only
seats 78..80). A request names a number of seats. It is refused when the number is
outside 1..7 or when fewer seats than that are free. Otherwise the allocator files the
free seats under their rows and scans the rows from the lowest row number up. It takes
the first `n` free seats of the first row that has `n` free. If no row has that many,
it takes the first `n` free seats by seat number. The chosen seats are flagged booked,
and the list of their numbers replaces the previous "last booking".

Modules:

- `Seats` (seats.dfy): the `Seat` record, the fixed layout, the free-seat filter, the
  per-row filter, the copy of the list with chosen seats flagged booked, and the
  booked-seat count.
- `Allocation` (allocation.dfy): the two validation errors, the `rows` table, first-fit
  over the table, and `Allocate`, the whole decision of one request as a function. The
  table is a sequence of `RowGroup` entries kept in ascending row order. That is the
  order in which the source's plain object with integer keys hands out its values.
- `Reservation` (reservation.dfy): the component state as a class with fields
  `seats`, `error` and `bookedSeats`. `BookSeats` is the request handler. It is proved
  to do exactly what `Allocate` decides. `PickSeats` holds the two loops of the source:
  the `forEach` that fills the table and the `for ... break` that finds the first row
  with room.
- `Scenarios` (scenarios.dfy): concrete consequences. The first request on a fresh
  coach books seats 1..n. When rows 1..m are fully booked, a request books the first
  seats of row m + 1. When the first seat of every row is booked, a request for seven
  seats falls back to the first seven free seats by number, 2..7 and 9.

The seat list is replaced as a whole after each booking. The source builds a new list
with `seats.map` and hands it to the state setter; it does not flip flags in place.
The model follows that. The error message is modelled as `Option<BookingError>`, where
`None` stands for the empty message.

## Model

| member | source | states |
|---|---|---|
| `Seats.RowOfIsCeiling` | src/SeatReservation.js:12 | the row of seat `id` is the unique r with (r-1)*7 < id <= r*7, i.e. ceil(id/7) |
| `Seats.InitialSeats` | src/SeatReservation.js:9-15 | the initial coach has 80 seats with ids 1..80 in order, row ceil(id/7), none booked |
| `Seats.FreeSeatsMembers` | src/SeatReservation.js:28 | the available seats are exactly the seats of the list that are not booked |
| `Seats.FreeSeatsAscending` | src/SeatReservation.js:28 | filtering keeps list order: ascending seat ids stay ascending |
| `Seats.SeatsInRowMembers` | src/SeatReservation.js:36-40 | the seats collected for a row are exactly the free seats with that row |
| `Seats.SeatsInRowAscending` | src/SeatReservation.js:36-40 | the seats of a row are collected in list order, so their ids ascend |
| `Seats.BookedCount` | src/SeatReservation.js:57-62 | a measure the model adds to state the at-most-80 bound on bookings: the number of booked seats never exceeds the number of seats |
| `Seats.BookedPlusFree` | src/SeatReservation.js:28-30 | booked seats plus available seats make up the whole coach |
| `Seats.MarkBooked` | src/SeatReservation.js:57-59 | the updated list keeps every seat's id and row, never unbooks a seat, books every seat whose id was chosen and leaves every other seat unchanged |
| `Seats.MarkBookedCount` | src/SeatReservation.js:57-59 | booking a strictly ascending list of ids of free seats, on a seat list whose ids ascend, raises the booked count by exactly the list's length |
| `Allocation.AddToRow` | src/SeatReservation.js:38-39 | filing a seat appends it to its row's list (creating the row if missing), leaves every other row's list alone, and keeps rows in ascending order |
| `Allocation.GroupByRow` | src/SeatReservation.js:36-40 | the table lists each row that has free seats once, in ascending row order, and each entry holds exactly that row's free seats in list order |
| `Allocation.FirstFit` | src/SeatReservation.js:44-49 | the result is the first entry with at least n seats, or none when no entry has n seats |
| `Allocation.Choose` | src/SeatReservation.js:42-54 | exactly n seats are chosen, all taken from the free seats, in ascending id order |
| `Allocation.Allocate` | src/SeatReservation.js:20-54 | out-of-range error iff n is outside 1..7; not-enough error iff n is in range and fewer than n seats are free; on success n ascending ids, each of a free seat |
| `Allocation.FirstFitIsLowest` | src/SeatReservation.js:44-49 | the entry first-fit picks is the lowest-numbered row with at least n free seats |
| `Allocation.RowFirst` | src/SeatReservation.js:36-49 | if some row has n free seats, the booking is the first n free seats of the lowest such row, so all share that row |
| `Allocation.Fallback` | src/SeatReservation.js:51-54 | if no row has n free seats, the booking is the first n free seats in id order |
| `Allocation.AllocateBooksExactly` | src/SeatReservation.js:57-59 | a successful request books exactly n more seats |
| `Reservation.AcceptedKeepsConsistent` | src/SeatReservation.js:57-62 | after a successful request the layout is intact, the last booking is ascending, every id in it is a booked seat, and the booked count rose by n |
| `Reservation.PickSeats` | src/SeatReservation.js:35-54 | the grouping loop and the first-fit loop with its break, followed by the fallback, pick exactly the ids `Choose` specifies |
| `Reservation.SeatReservation.constructor` | src/SeatReservation.js:9-17 | the component starts with the initial coach, no error and an empty last booking |
| `Reservation.SeatReservation.BookSeats` | src/SeatReservation.js:20-63 | on an error the error is set and neither the seats nor the last booking change; on success the error is clear, the seats are the marked list, the last booking is replaced by the new ids, exactly n more seats are booked, and the booked count stays at most 80 |
| `Scenarios.NextRowIsLowestFit` | src/SeatReservation.js:36-49 | with rows 1..m fully booked and the rest free, row m+1 is the lowest row with n free seats and holds seats 7m+1..7m+7 |
| `Scenarios.WholeRowsBookedThenNextRow` | src/SeatReservation.js:42-49 | with rows 1..m fully booked, a request for n seats books 7m+1..7m+n (after row 1 is full, 5 seats are 8..12) |
| `Scenarios.FirstRequest` | src/SeatReservation.js:9-49 | the first request for n seats on a fresh coach books seats 1..n |
| `Scenarios.FallbackAcrossRows` | src/SeatReservation.js:51-54 | with the first seat of every row booked (ids 1, 8, ..., 71, 78), no row has 7 free seats and a request for 7 seats books 2..7 and 9, across rows 1 and 2 |

## Left out

- Rendering of the seat grid, the input box, the error line and the booking summary
  (src/SeatReservation.js:65-108). This is user interface only.
- React's `useState` machinery and the stylesheet import (src/SeatReservation.js:1-2).
  The state is plain class fields. Each call sees the state the previous call left, so
  stale-render effects of batched state updates are not modelled.
- Parsing the input with `Number(...)` (src/SeatReservation.js:94). The seat count is an
  `int`, so a NaN count (which passes the range check and books nothing) and a
  fractional count (which `slice` truncates) are not modelled.
- The wording of the two error messages (src/SeatReservation.js:24, 31). They are the two
  constructors of `BookingError`.
- Key order of the `rows` object for keys that are not array indices. `AddToRow` orders
  entries by numeric row value. An ECMAScript object hands out its array-index keys
  (integers 0..2^32-2) in ascending numeric order, before any other key, so the two
  orders agree whenever every row is such an index. In every state of the component the
  seats satisfy `Layout` (`Seats.InitialSeats`, `Reservation.AcceptedKeepsConsistent`),
  so rows are 1..12. `Allocate` and the filters accept any seat list, but the component
  only reaches them with layout states.
