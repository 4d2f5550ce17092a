/** The coach: a fixed list of 80 seats, 7 to a row, each either free or
    booked, and the value-level operations the allocator performs on it
    (the free-seat filter, the per-row filter, and the copy of the list in
    which the chosen seats are flagged booked). */
module Seats {

  const TotalSeats: int := 80
  const SeatsPerRow: int := 7

  /** One seat: its number (1..80), its row and whether it is booked. */
  datatype Seat = Seat(id: int, row: int, isBooked: bool)

  /** The row of seat number `id`: the ceiling of id / 7. */
  function RowOf(id: int): int
  {
    (id + SeatsPerRow - 1) / SeatsPerRow
  }

  /** RowOf is the ceiling of id / 7: the one row whose block of seven
      numbers holds `id`. */
  lemma RowOfIsCeiling(id: int, r: int)
    ensures r == RowOf(id) <==> (r - 1) * SeatsPerRow < id <= r * SeatsPerRow
  {
  }

  /** Strictly increasing numbers (so they are distinct). */
  ghost predicate Ascending(ids: seq<int>)
  {
    forall i, j :: 0 <= i < j < |ids| ==> ids[i] < ids[j]
  }

  /** The seat numbers of a list of seats. */
  function Ids(s: seq<Seat>): (r: seq<int>)
    ensures |r| == |s| && forall i :: 0 <= i < |s| ==> r[i] == s[i].id
  {
    seq(|s|, i requires 0 <= i < |s| => s[i].id)
  }

  /** Seat numbers strictly increase along the list. */
  ghost predicate IdsAscending(s: seq<Seat>)
  {
    Ascending(Ids(s))
  }

  /** The fixed shape of the coach: 80 seats numbered 1..80 in order, each in
      row ceil(id / 7). The booked flags are not constrained. */
  ghost predicate Layout(s: seq<Seat>)
  {
    && |s| == TotalSeats
    && forall i :: 0 <= i < |s| ==> s[i].id == i + 1 && s[i].row == RowOf(i + 1)
  }

  /** The coach as the component first builds it. */
  function InitialSeats(): (s: seq<Seat>)
    ensures Layout(s)
    ensures forall i :: 0 <= i < |s| ==> !s[i].isBooked
  {
    seq(TotalSeats, i requires 0 <= i => Seat(i + 1, RowOf(i + 1), false))
  }

  lemma LayoutIdsAscending(s: seq<Seat>)
    requires Layout(s)
    ensures IdsAscending(s)
  {
  }

  /** The free seats, in list order (the filter on `!seat.isBooked`). */
  function FreeSeats(s: seq<Seat>): (r: seq<Seat>)
    ensures |r| <= |s|
    decreases |s|
  {
    if s == [] then []
    else
      var last := s[|s| - 1];
      FreeSeats(s[..|s| - 1]) + (if last.isBooked then [] else [last])
  }

  /** The free seats are exactly the seats not booked. */
  lemma {:induction false} FreeSeatsMembers(s: seq<Seat>)
    ensures forall x :: x in FreeSeats(s) <==> x in s && !x.isBooked
    decreases |s|
  {
    if s != [] {
      FreeSeatsMembers(s[..|s| - 1]);
      assert s == s[..|s| - 1] + [s[|s| - 1]];
    }
  }

  /** Filtering keeps the seats in list order. */
  lemma {:induction false} FreeSeatsAscending(s: seq<Seat>)
    requires IdsAscending(s)
    ensures IdsAscending(FreeSeats(s))
    decreases |s|
  {
    if s != [] {
      var p := s[..|s| - 1];
      FreeSeatsAscending(p);
      FreeSeatsMembers(p);
    }
  }

  /** The seats of row `row`, in list order. */
  function SeatsInRow(s: seq<Seat>, row: int): (r: seq<Seat>)
    ensures |r| <= |s|
    decreases |s|
  {
    if s == [] then []
    else
      var last := s[|s| - 1];
      SeatsInRow(s[..|s| - 1], row) + (if last.row == row then [last] else [])
  }

  /** The seats of a row are exactly the seats of the list with that row. */
  lemma {:induction false} SeatsInRowMembers(s: seq<Seat>, row: int)
    ensures forall x :: x in SeatsInRow(s, row) <==> x in s && x.row == row
    decreases |s|
  {
    if s != [] {
      SeatsInRowMembers(s[..|s| - 1], row);
      assert s == s[..|s| - 1] + [s[|s| - 1]];
    }
  }

  /** Filtering keeps the seats in list order. */
  lemma {:induction false} SeatsInRowAscending(s: seq<Seat>, row: int)
    requires IdsAscending(s)
    ensures IdsAscending(SeatsInRow(s, row))
    decreases |s|
  {
    if s != [] {
      var p := s[..|s| - 1];
      SeatsInRowAscending(p, row);
      SeatsInRowMembers(p, row);
    }
  }

  /** The number of booked seats. */
  function BookedCount(s: seq<Seat>): (c: nat)
    ensures c <= |s|
    decreases |s|
  {
    if s == [] then 0
    else BookedCount(s[..|s| - 1]) + (if s[|s| - 1].isBooked then 1 else 0)
  }

  lemma {:induction false} BookedPlusFree(s: seq<Seat>)
    ensures BookedCount(s) + |FreeSeats(s)| == |s|
    decreases |s|
  {
    if s != [] {
      BookedPlusFree(s[..|s| - 1]);
    }
  }

  /** The list with every seat whose number is in `ids` flagged booked and
      every other seat left as it was. */
  function MarkBooked(s: seq<Seat>, ids: seq<int>): (r: seq<Seat>)
    ensures |r| == |s|
    ensures forall i :: 0 <= i < |s| ==> r[i].id == s[i].id && r[i].row == s[i].row
    ensures forall i :: 0 <= i < |s| && s[i].isBooked ==> r[i].isBooked
    ensures forall i :: 0 <= i < |s| && s[i].id in ids ==> r[i].isBooked
    ensures forall i :: 0 <= i < |s| && s[i].id !in ids ==> r[i] == s[i]
  {
    seq(|s|, i requires 0 <= i < |s| => if s[i].id in ids then s[i].(isBooked := true) else s[i])
  }

  /** Every number in `ids` belongs to a seat of `s` that is free. */
  ghost predicate AllFree(s: seq<Seat>, ids: seq<int>)
  {
    forall k :: 0 <= k < |ids| ==> exists j :: 0 <= j < |s| && s[j].id == ids[k] && !s[j].isBooked
  }

  lemma MarkBookedSnoc(s: seq<Seat>, ids: seq<int>)
    requires s != []
    ensures var x := s[|s| - 1];
      BookedCount(MarkBooked(s, ids))
      == BookedCount(MarkBooked(s[..|s| - 1], ids)) + (if x.isBooked || x.id in ids then 1 else 0)
  {
    var m := MarkBooked(s, ids);
    assert m[..|m| - 1] == MarkBooked(s[..|s| - 1], ids);
  }

  lemma MarkBookedAgree(s: seq<Seat>, a: seq<int>, b: seq<int>)
    requires forall i :: 0 <= i < |s| ==> (s[i].id in a <==> s[i].id in b)
    ensures MarkBooked(s, a) == MarkBooked(s, b)
  {
  }

  /** When the last number is not that of the last seat, every number
      belongs to a free seat before it, and the last seat is not chosen. */
  lemma AllFreeSkipLast(s: seq<Seat>, ids: seq<int>)
    requires s != [] && IdsAscending(s) && Ascending(ids) && AllFree(s, ids)
    requires ids == [] || ids[|ids| - 1] != s[|s| - 1].id
    ensures AllFree(s[..|s| - 1], ids)
    ensures s[|s| - 1].id !in ids
    ensures IdsAscending(s[..|s| - 1])
  {
    var p, x := s[..|s| - 1], s[|s| - 1];
    if ids != [] {
      var jl :| 0 <= jl < |s| && s[jl].id == ids[|ids| - 1] && !s[jl].isBooked;
      assert jl < |s| - 1;
      forall k | 0 <= k < |ids|
        ensures ids[k] < x.id
        ensures exists j :: 0 <= j < |p| && p[j].id == ids[k] && !p[j].isBooked
      {
        var j :| 0 <= j < |s| && s[j].id == ids[k] && !s[j].isBooked;
        assert k == |ids| - 1 || ids[k] < ids[|ids| - 1];
        assert j < |s| - 1;
        assert p[j].id == ids[k];
      }
    }
  }

  /** When the last number is that of the last seat, the other numbers
      belong to free seats before it. */
  lemma AllFreeDropLast(s: seq<Seat>, ids: seq<int>)
    requires s != [] && Ascending(ids) && AllFree(s, ids)
    requires ids != [] && ids[|ids| - 1] == s[|s| - 1].id
    ensures AllFree(s[..|s| - 1], ids[..|ids| - 1])
  {
    var p, ids' := s[..|s| - 1], ids[..|ids| - 1];
    forall k | 0 <= k < |ids'|
      ensures exists j :: 0 <= j < |p| && p[j].id == ids'[k] && !p[j].isBooked
    {
      assert ids'[k] == ids[k] < s[|s| - 1].id;
      var j :| 0 <= j < |s| && s[j].id == ids[k] && !s[j].isBooked;
      assert j != |s| - 1;
      assert p[j] == s[j];
    }
    assert forall k :: 0 <= k < |ids'| ==>
      exists j :: 0 <= j < |p| && p[j].id == ids'[k] && !p[j].isBooked;
  }

  /** When the last number is that of the last seat, that seat is free and
      the other numbers belong to free seats before it. */
  lemma AllFreeTakeLast(s: seq<Seat>, ids: seq<int>)
    requires s != [] && IdsAscending(s) && Ascending(ids) && AllFree(s, ids)
    requires ids != [] && ids[|ids| - 1] == s[|s| - 1].id
    ensures !s[|s| - 1].isBooked
    ensures AllFree(s[..|s| - 1], ids[..|ids| - 1])
    ensures IdsAscending(s[..|s| - 1]) && Ascending(ids[..|ids| - 1])
    ensures forall i :: 0 <= i < |s| - 1 ==> (s[i].id in ids <==> s[i].id in ids[..|ids| - 1])
  {
    var p, x, ids' := s[..|s| - 1], s[|s| - 1], ids[..|ids| - 1];
    var jl :| 0 <= jl < |s| && s[jl].id == ids[|ids| - 1] && !s[jl].isBooked;
    assert Ids(s)[jl] == Ids(s)[|s| - 1];
    assert jl == |s| - 1;
    AllFreeDropLast(s, ids);
    assert Ids(p) == Ids(s)[..|s| - 1];
    forall i | 0 <= i < |s| - 1
      ensures s[i].id in ids <==> s[i].id in ids'
    {
      if s[i].id in ids {
        var k :| 0 <= k < |ids| && ids[k] == s[i].id;
        assert Ids(s)[i] < Ids(s)[|s| - 1];
        assert ids'[k] == s[i].id;
      }
    }
  }

  lemma AllFreeNeedsSeats(s: seq<Seat>, ids: seq<int>)
    requires AllFree(s, ids)
    ensures ids != [] ==> s != []
  {
    if ids != [] {
      var j :| 0 <= j < |s| && s[j].id == ids[0] && !s[j].isBooked;
    }
  }

  /** On a list whose seat numbers ascend, marking booked a strictly
      ascending list of numbers of free seats books exactly that many more
      seats. */
  lemma {:induction false} MarkBookedCount(s: seq<Seat>, ids: seq<int>)
    requires IdsAscending(s)
    requires Ascending(ids)
    requires AllFree(s, ids)
    ensures BookedCount(MarkBooked(s, ids)) == BookedCount(s) + |ids|
    decreases |s|
  {
    if s == [] {
      AllFreeNeedsSeats(s, ids);
    } else {
      var p, x := s[..|s| - 1], s[|s| - 1];
      MarkBookedSnoc(s, ids);
      assert BookedCount(s) == BookedCount(p) + (if x.isBooked then 1 else 0);
      if ids != [] && ids[|ids| - 1] == x.id {
        var ids' := ids[..|ids| - 1];
        AllFreeTakeLast(s, ids);
        MarkBookedCount(p, ids');
        MarkBookedAgree(p, ids, ids');
      } else {
        AllFreeSkipLast(s, ids);
        MarkBookedCount(p, ids);
      }
    }
  }
}
