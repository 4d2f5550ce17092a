/** The seat allocator of the reservation component as pure functions: the
    two validation checks, the table of free seats grouped by row, the
    first-fit choice of a row and the fallback to the first free seats. */
module Allocation {
  import opened Seats

  datatype Option<T> = None | Some(value: T)

  /** The two ways a request is refused. */
  datatype BookingError = CountOutOfRange | NotEnoughSeats

  datatype Result<T> = Ok(value: T) | Err(error: BookingError)

  /** The range of seat counts one request may ask for. */
  const MinPerBooking: int := 1
  const MaxPerBooking: int := 7

  /** One entry of the `rows` table: a row number and the free seats filed
      under it, in the order they were filed. */
  datatype RowGroup = RowGroup(row: int, seats: seq<Seat>)

  /** The table lists its rows in ascending row order, which is the order
      in which a lookup table keyed by small non-negative integers hands out
      its values. */
  ghost predicate RowsAscending(g: seq<RowGroup>)
  {
    forall i, j :: 0 <= i < j < |g| ==> g[i].row < g[j].row
  }

  /** The seats filed under `row`; none when the table has no such row. */
  function Lookup(g: seq<RowGroup>, row: int): seq<Seat>
  {
    if g == [] then []
    else if g[0].row == row then g[0].seats
    else Lookup(g[1..], row)
  }

  lemma {:induction false} LookupBelow(g: seq<RowGroup>, row: int)
    requires RowsAscending(g)
    requires g == [] || row < g[0].row
    ensures Lookup(g, row) == []
    decreases |g|
  {
    if g != [] {
      assert RowsAscending(g[1..]);
      LookupBelow(g[1..], row);
    }
  }

  /** In an ascending table, looking up a listed row gives that row's seats. */
  lemma {:induction false} LookupAt(g: seq<RowGroup>, i: int)
    requires RowsAscending(g)
    requires 0 <= i < |g|
    ensures Lookup(g, g[i].row) == g[i].seats
    decreases |g|
  {
    if i > 0 {
      assert RowsAscending(g[1..]);
      assert g[1..][i - 1] == g[i];
      LookupAt(g[1..], i - 1);
    }
  }

  /** A row with seats filed under it is listed in the table. */
  lemma {:induction false} LookupFound(g: seq<RowGroup>, row: int)
    requires Lookup(g, row) != []
    ensures exists i :: 0 <= i < |g| && g[i].row == row && g[i].seats == Lookup(g, row)
    decreases |g|
  {
    if g[0].row != row {
      LookupFound(g[1..], row);
      var i :| 0 <= i < |g[1..]| && g[1..][i].row == row && g[1..][i].seats == Lookup(g[1..], row);
      assert g[i + 1] == g[1..][i];
    }
  }

  /** Files seat `x` under its row: appended to the row's list when the row
      is already in the table, otherwise a new entry placed in row order. */
  function AddToRow(g: seq<RowGroup>, x: Seat): (r: seq<RowGroup>)
    ensures r != [] && (r[0].row == x.row || (g != [] && r[0].row == g[0].row))
    ensures RowsAscending(g) ==> RowsAscending(r)
    ensures RowsAscending(g) ==>
      forall row :: Lookup(r, row) == Lookup(g, row) + (if row == x.row then [x] else [])
    ensures (forall i :: 0 <= i < |g| ==> g[i].seats != []) ==>
      forall i :: 0 <= i < |r| ==> r[i].seats != []
    decreases |g|
  {
    if g == [] then [RowGroup(x.row, [x])]
    else if x.row == g[0].row then [RowGroup(x.row, g[0].seats + [x])] + g[1..]
    else if x.row < g[0].row then
      assert RowsAscending(g) ==> Lookup(g, x.row) == [] by {
        if RowsAscending(g) { LookupBelow(g, x.row); }
      }
      [RowGroup(x.row, [x])] + g
    else
      assert RowsAscending(g) ==> RowsAscending(g[1..]);
      [g[0]] + AddToRow(g[1..], x)
  }

  /** The `rows` table built from the free seats, each filed in turn. */
  function GroupByRow(s: seq<Seat>): (g: seq<RowGroup>)
    ensures RowsAscending(g)
    ensures forall row :: Lookup(g, row) == SeatsInRow(s, row)
    ensures forall i :: 0 <= i < |g| ==> g[i].seats != []
    decreases |s|
  {
    if s == [] then []
    else AddToRow(GroupByRow(s[..|s| - 1]), s[|s| - 1])
  }

  /** Every entry of the table holds exactly the seats of its row. */
  lemma GroupAt(s: seq<Seat>, i: int)
    requires 0 <= i < |GroupByRow(s)|
    ensures GroupByRow(s)[i].seats == SeatsInRow(s, GroupByRow(s)[i].row)
  {
    LookupAt(GroupByRow(s), i);
  }

  /** The position of the first entry holding at least `n` seats. */
  function FirstFit(g: seq<RowGroup>, n: int): (r: Option<nat>)
    ensures r.Some? ==> r.value < |g| && |g[r.value].seats| >= n
    ensures r.Some? ==> forall j :: 0 <= j < r.value ==> |g[j].seats| < n
    ensures r.None? ==> forall j :: 0 <= j < |g| ==> |g[j].seats| < n
    decreases |g|
  {
    if g == [] then None
    else if |g[0].seats| >= n then Some(0)
    else
      match FirstFit(g[1..], n)
      case None => None
      case Some(k) => Some(k + 1)
  }

  /** The seats one valid request takes from the free seats: the first `n`
      of the first row that has `n` free, else the first `n` free overall. */
  function Choose(free: seq<Seat>, n: int): (r: seq<Seat>)
    requires 1 <= n <= |free|
    ensures |r| == n
    ensures forall x :: x in r ==> x in free
    ensures IdsAscending(free) ==> IdsAscending(r)
  {
    var rows := GroupByRow(free);
    match FirstFit(rows, n)
    case Some(k) =>
      GroupAt(free, k);
      SeatsInRowMembers(free, rows[k].row);
      assert IdsAscending(free) ==> IdsAscending(rows[k].seats) by {
        if IdsAscending(free) { SeatsInRowAscending(free, rows[k].row); }
      }
      rows[k].seats[..n]
    case None => free[..n]
  }

  /** What one call of the allocator decides: an error, or the numbers of
      the seats it books. */
  function Allocate(seats: seq<Seat>, n: int): (r: Result<seq<int>>)
    ensures r == Err(CountOutOfRange) <==> n < MinPerBooking || n > MaxPerBooking
    ensures r == Err(NotEnoughSeats) <==>
      MinPerBooking <= n <= MaxPerBooking && |FreeSeats(seats)| < n
    ensures r.Ok? ==> |r.value| == n && AllFree(seats, r.value)
    ensures r.Ok? && IdsAscending(seats) ==> Ascending(r.value)
  {
    if n < MinPerBooking || n > MaxPerBooking then Err(CountOutOfRange)
    else
      var free := FreeSeats(seats);
      if |free| < n then Err(NotEnoughSeats)
      else
        var chosen := Choose(free, n);
        FreeSeatsMembers(seats);
        assert forall k :: 0 <= k < n ==> chosen[k] in seats && !chosen[k].isBooked;
        assert IdsAscending(seats) ==> IdsAscending(chosen) by {
          if IdsAscending(seats) { FreeSeatsAscending(seats); }
        }
        Ok(Ids(chosen))
  }

  /** Row `row` has at least `n` free seats. */
  ghost predicate RowFits(free: seq<Seat>, row: int, n: int)
  {
    |SeatsInRow(free, row)| >= n
  }

  /** `row` is the lowest-numbered row with at least `n` free seats. */
  ghost predicate LowestFit(free: seq<Seat>, row: int, n: int)
  {
    RowFits(free, row, n) && forall lower :: lower < row ==> !RowFits(free, lower, n)
  }

  /** The entry first-fit picks is the lowest-numbered row with `n` free seats. */
  lemma FirstFitIsLowest(free: seq<Seat>, n: int, k: nat)
    requires n >= 1
    requires FirstFit(GroupByRow(free), n) == Some(k)
    ensures k < |GroupByRow(free)| && LowestFit(free, GroupByRow(free)[k].row, n)
  {
    var g := GroupByRow(free);
    var row := g[k].row;
    GroupAt(free, k);
    forall lower | lower < row
      ensures !RowFits(free, lower, n)
    {
      if SeatsInRow(free, lower) != [] {
        LookupFound(g, lower);
        var j :| 0 <= j < |g| && g[j].row == lower && g[j].seats == Lookup(g, lower);
        assert j < k;
      }
    }
  }

  /** When some row has room for the whole request, the allocator books the
      first `n` free seats, in list order, of the lowest such row. */
  lemma RowFirst(seats: seq<Seat>, n: int)
    requires MinPerBooking <= n <= MaxPerBooking
    requires exists row :: RowFits(FreeSeats(seats), row, n)
    ensures exists row ::
      (LowestFit(FreeSeats(seats), row, n) &&
       Allocate(seats, n) == Ok(Ids(SeatsInRow(FreeSeats(seats), row)[..n])))
  {
    var free := FreeSeats(seats);
    var g := GroupByRow(free);
    var given :| RowFits(free, given, n);
    LookupFound(g, given);
    var i :| 0 <= i < |g| && g[i].row == given && g[i].seats == Lookup(g, given);
    assert |g[i].seats| >= n;
    var k := FirstFit(g, n).value;
    FirstFitIsLowest(free, n, k);
    GroupAt(free, k);
    assert |free| >= n;
    assert Allocate(seats, n) == Ok(Ids(SeatsInRow(free, g[k].row)[..n]));
  }

  /** When no row has room for the whole request, the allocator books the
      first `n` free seats in list order. */
  lemma Fallback(seats: seq<Seat>, n: int)
    requires MinPerBooking <= n <= |FreeSeats(seats)|
    requires n <= MaxPerBooking
    requires forall row :: !RowFits(FreeSeats(seats), row, n)
    ensures Allocate(seats, n) == Ok(Ids(FreeSeats(seats)[..n]))
  {
    var free := FreeSeats(seats);
    var g := GroupByRow(free);
    forall k | 0 <= k < |g|
      ensures |g[k].seats| < n
    {
      GroupAt(free, k);
      assert !RowFits(free, g[k].row, n);
    }
    assert FirstFit(g, n).None?;
  }

  /** A successful request books exactly `n` more seats. */
  lemma AllocateBooksExactly(seats: seq<Seat>, n: int)
    requires IdsAscending(seats)
    requires Allocate(seats, n).Ok?
    ensures BookedCount(MarkBooked(seats, Allocate(seats, n).value)) == BookedCount(seats) + n
  {
    MarkBookedCount(seats, Allocate(seats, n).value);
  }
}
