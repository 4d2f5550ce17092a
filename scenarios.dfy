/** What the allocator does on coaches where whole rows from the front are
    already booked, among them the untouched coach. */
module Scenarios {
  import opened Seats
  import opened Allocation

  /** The seats of a row that occupies positions lo..hi of a list in which
      lower rows come before it and higher rows after it. */
  lemma {:induction false} SeatsInRowBlock(t: seq<Seat>, r: int, lo: int, hi: int)
    requires 0 <= lo <= hi <= |t|
    requires forall i :: 0 <= i < lo ==> t[i].row < r
    requires forall i :: lo <= i < hi ==> t[i].row == r
    requires forall i :: hi <= i < |t| ==> t[i].row > r
    ensures SeatsInRow(t, r) == t[lo..hi]
    decreases |t|
  {
    if t != [] {
      var p, x := t[..|t| - 1], t[|t| - 1];
      assert SeatsInRow(t, r) == SeatsInRow(p, r) + (if x.row == r then [x] else []);
      if |t| - 1 >= hi {
        SeatsInRowBlock(p, r, lo, hi);
      } else if |t| - 1 >= lo {
        SeatsInRowBlock(p, r, lo, hi - 1);
        assert t[lo..hi] == p[lo..hi - 1] + [x];
      } else {
        SeatsInRowBlock(p, r, |p|, |p|);
      }
    }
  }

  /** When exactly the first `b` seats are booked, the free seats are the rest. */
  lemma {:induction false} FreeAfterBookedPrefix(t: seq<Seat>, b: int)
    requires 0 <= b <= |t|
    requires forall i :: 0 <= i < |t| ==> (t[i].isBooked <==> i < b)
    ensures FreeSeats(t) == t[b..]
    decreases |t|
  {
    if t != [] {
      var p := t[..|t| - 1];
      if |t| > b {
        FreeAfterBookedPrefix(p, b);
        assert t[b..] == p[b..] + [t[|t| - 1]];
      } else {
        FreeAfterBookedPrefix(p, |p|);
      }
    }
  }

  lemma RowOfBlock(m: int, i: int)
    requires m >= 0 && i >= 0
    ensures i < SeatsPerRow ==> RowOf(SeatsPerRow * m + i + 1) == m + 1
    ensures i >= SeatsPerRow ==> RowOf(SeatsPerRow * m + i + 1) > m + 1
  {
    RowOfIsCeiling(SeatsPerRow * m + i + 1, RowOf(SeatsPerRow * m + i + 1));
  }

  /** With rows 1..m fully booked and every other seat free, the free seats
      are the seats from number 7m + 1 on, the first seven of them in row
      m + 1 and the rest in higher rows. */
  lemma FreeAfterWholeRows(s: seq<Seat>, m: int)
    requires Layout(s)
    requires 0 <= m <= 10
    requires forall i :: 0 <= i < |s| ==> (s[i].isBooked <==> i < SeatsPerRow * m)
    ensures FreeSeats(s) == s[SeatsPerRow * m..]
    ensures forall i :: 0 <= i < |FreeSeats(s)| ==>
      (i < SeatsPerRow ==> FreeSeats(s)[i].row == m + 1) &&
      (i >= SeatsPerRow ==> FreeSeats(s)[i].row > m + 1)
  {
    var b := SeatsPerRow * m;
    FreeAfterBookedPrefix(s, b);
    forall j | b <= j < |s|
      ensures j - b < SeatsPerRow ==> s[j].row == m + 1
      ensures j - b >= SeatsPerRow ==> s[j].row > m + 1
    {
      RowOfBlock(m, j - b);
    }
  }

  /** With rows 1..m fully booked and every other seat free, row m + 1 is
      the lowest with `n` free seats, and its free seats are 7m + 1..7m + 7. */
  lemma NextRowIsLowestFit(s: seq<Seat>, m: int, n: int)
    requires Layout(s)
    requires 0 <= m <= 10
    requires MinPerBooking <= n <= MaxPerBooking
    requires forall i :: 0 <= i < |s| ==> (s[i].isBooked <==> i < SeatsPerRow * m)
    ensures SeatsInRow(FreeSeats(s), m + 1) == s[SeatsPerRow * m..SeatsPerRow * m + SeatsPerRow]
    ensures LowestFit(FreeSeats(s), m + 1, n)
  {
    FreeAfterWholeRows(s, m);
    var free := FreeSeats(s);
    SeatsInRowBlock(free, m + 1, 0, SeatsPerRow);
    forall lower | lower < m + 1
      ensures !RowFits(free, lower, n)
    {
      SeatsInRowBlock(free, lower, 0, 0);
    }
  }

  /** With rows 1..m fully booked and every other seat free, a request for
      `n` seats books the first `n` seats of row m + 1; with m = 0 this is
      the first request on an untouched coach, which books seats 1..n. */
  lemma WholeRowsBookedThenNextRow(s: seq<Seat>, m: int, n: int)
    requires Layout(s)
    requires 0 <= m <= 10
    requires MinPerBooking <= n <= MaxPerBooking
    requires forall i :: 0 <= i < |s| ==> (s[i].isBooked <==> i < SeatsPerRow * m)
    ensures Allocate(s, n) == Ok(seq(n, k => SeatsPerRow * m + k + 1))
  {
    var free := FreeSeats(s);
    NextRowIsLowestFit(s, m, n);
    RowFirst(s, n);
    var row :| LowestFit(free, row, n) && Allocate(s, n) == Ok(Ids(SeatsInRow(free, row)[..n]));
    assert !(row < m + 1);
    assert !(m + 1 < row);
    IdsOfRun(s, SeatsPerRow * m, n);
  }

  /** On the coach, `n` consecutive seats from position b carry the numbers
      b + 1..b + n. */
  lemma IdsOfRun(s: seq<Seat>, b: int, n: int)
    requires Layout(s)
    requires 0 <= b && 0 <= n <= SeatsPerRow && b + SeatsPerRow <= |s|
    ensures Ids(s[b..b + SeatsPerRow][..n]) == seq(n, k => b + k + 1)
  {
    var chosen := s[b..b + SeatsPerRow][..n];
    forall k | 0 <= k < n
      ensures chosen[k].id == b + k + 1
    {
      assert chosen[k] == s[b + k];
    }
  }

  /** The first request on the coach as the component builds it. */
  lemma FirstRequest(n: int)
    requires MinPerBooking <= n <= MaxPerBooking
    ensures Allocate(InitialSeats(), n) == Ok(seq(n, k => k + 1))
  {
    WholeRowsBookedThenNextRow(InitialSeats(), 0, n);
    assert seq(n, k => SeatsPerRow * 0 + k + 1) == seq(n, k => k + 1);
  }

  /** Filtering a concatenation filters each part. */
  lemma {:induction false} FreeSeatsAppend(a: seq<Seat>, b: seq<Seat>)
    ensures FreeSeats(a + b) == FreeSeats(a) + FreeSeats(b)
    decreases |b|
  {
    if b != [] {
      var b', y := b[..|b| - 1], b[|b| - 1];
      var ab := a + b;
      assert ab[..|ab| - 1] == a + b' && ab[|ab| - 1] == y;
      assert FreeSeats(ab) == FreeSeats(a + b') + (if y.isBooked then [] else [y]);
      assert FreeSeats(b) == FreeSeats(b') + (if y.isBooked then [] else [y]);
      FreeSeatsAppend(a, b');
    } else {
      assert a + b == a;
    }
  }

  /** Filtering one more seat. */
  lemma FreeSeatsSnoc(t: seq<Seat>, x: Seat)
    ensures FreeSeats(t + [x]) == FreeSeats(t) + (if x.isBooked then [] else [x])
  {
    assert (t + [x])[..|t + [x]| - 1] == t;
  }

  /** Picking a row's seats out of one more seat. */
  lemma SeatsInRowSnoc(t: seq<Seat>, x: Seat, r: int)
    ensures SeatsInRow(t + [x], r) == SeatsInRow(t, r) + (if x.row == r then [x] else [])
  {
    assert (t + [x])[..|t + [x]| - 1] == t;
  }

  /** The free seats of a row are the row's seats that are free. */
  lemma {:induction false} SeatsInRowOfFree(s: seq<Seat>, r: int)
    ensures SeatsInRow(FreeSeats(s), r) == FreeSeats(SeatsInRow(s, r))
    decreases |s|
  {
    if s != [] {
      var p, x := s[..|s| - 1], s[|s| - 1];
      assert s == p + [x];
      SeatsInRowOfFree(p, r);
      FreeSeatsSnoc(p, x);
      SeatsInRowSnoc(p, x, r);
      if !x.isBooked {
        SeatsInRowSnoc(FreeSeats(p), x, r);
      } else {
        assert FreeSeats(s) == FreeSeats(p);
      }
      if x.row == r {
        FreeSeatsSnoc(SeatsInRow(p, r), x);
      } else {
        assert SeatsInRow(s, r) == SeatsInRow(p, r);
      }
    }
  }

  /** Where seat position i lies relative to the block of row r. */
  lemma RowAgainstBlock(i: int, r: int)
    requires i >= 0
    ensures i < SeatsPerRow * (r - 1) ==> RowOf(i + 1) < r
    ensures SeatsPerRow * (r - 1) <= i < SeatsPerRow * r ==> RowOf(i + 1) == r
    ensures i >= SeatsPerRow * r ==> RowOf(i + 1) > r
  {
    RowOfIsCeiling(i + 1, RowOf(i + 1));
  }

  function Clamp(x: int): (c: int)
    ensures 0 <= c <= TotalSeats
  {
    if x < 0 then 0 else if x > TotalSeats then TotalSeats else x
  }

  /** On the coach, the seats of row r are the positions 7(r - 1)..7r,
      cut to the 80 seats there are. */
  lemma LayoutRow(s: seq<Seat>, r: int)
    requires Layout(s)
    ensures SeatsInRow(s, r) == s[Clamp(SeatsPerRow * (r - 1))..Clamp(SeatsPerRow * r)]
  {
    var lo, hi := Clamp(SeatsPerRow * (r - 1)), Clamp(SeatsPerRow * r);
    forall i | 0 <= i < |s|
      ensures i < lo ==> s[i].row < r
      ensures lo <= i < hi ==> s[i].row == r
      ensures hi <= i ==> s[i].row > r
    {
      RowAgainstBlock(i, r);
    }
    SeatsInRowBlock(s, r, lo, hi);
  }

  /** A list of seats whose first seat is booked has fewer free seats than seats. */
  lemma FirstBookedFewerFree(t: seq<Seat>)
    requires t != [] && t[0].isBooked
    ensures |FreeSeats(t)| < |t|
  {
    FreeSeatsAppend([t[0]], t[1..]);
    assert [t[0]] + t[1..] == t;
    assert FreeSeats([t[0]]) == [];
  }

  /** The first seat of every row is booked and every other seat is free. */
  ghost predicate FirstOfEachRowBooked(s: seq<Seat>)
  {
    forall i :: 0 <= i < |s| ==> (s[i].isBooked <==> i == SeatsPerRow * (s[i].row - 1))
  }

  /** With the first seat of every row booked, no row has seven free seats. */
  lemma NoRowHasSeven(s: seq<Seat>, r: int)
    requires Layout(s) && FirstOfEachRowBooked(s)
    ensures |SeatsInRow(FreeSeats(s), r)| < SeatsPerRow
  {
    var lo, hi := Clamp(SeatsPerRow * (r - 1)), Clamp(SeatsPerRow * r);
    SeatsInRowOfFree(s, r);
    LayoutRow(s, r);
    var block := s[lo..hi];
    if hi - lo == SeatsPerRow {
      assert lo == SeatsPerRow * (r - 1);
      RowAgainstBlock(lo, r);
      assert block[0] == s[lo];
      FirstBookedFewerFree(block);
    }
  }

  /** With the first seat of every row booked, the first seven free seats
      are those at positions 1..6 and 8. */
  lemma FirstSevenFree(s: seq<Seat>)
    requires Layout(s) && FirstOfEachRowBooked(s)
    ensures |FreeSeats(s)| >= 7
    ensures FreeSeats(s)[..7] == s[1..7] + [s[8]]
  {
    assert s == s[..1] + s[1..7] + s[7..8] + s[8..9] + s[9..];
    FreeSeatsAppend(s[..1] + s[1..7] + s[7..8] + s[8..9], s[9..]);
    FreeSeatsAppend(s[..1] + s[1..7] + s[7..8], s[8..9]);
    FreeSeatsAppend(s[..1] + s[1..7], s[7..8]);
    FreeSeatsAppend(s[..1], s[1..7]);
    assert FreeSeats(s[..1]) == [];
    assert FreeSeats(s[7..8]) == [];
    assert FreeSeats(s[8..9]) == [s[8]];
    FreeAfterBookedPrefix(s[1..7], 0);
  }

  /** The seat numbers at positions 1..6 and 8 of the coach. */
  lemma IdsOfFirstSevenFree(s: seq<Seat>)
    requires Layout(s)
    ensures Ids(s[1..7] + [s[8]]) == [2, 3, 4, 5, 6, 7, 9]
  {
    var t := s[1..7] + [s[8]];
    assert t[0] == s[1] && t[1] == s[2] && t[2] == s[3] && t[3] == s[4];
    assert t[4] == s[5] && t[5] == s[6] && t[6] == s[8];
  }

  /** With the first seat of every row booked, a request for seven seats
      finds no row with room and books the first seven free seats by number,
      2..7 and 9, which span rows 1 and 2. */
  lemma FallbackAcrossRows(s: seq<Seat>)
    requires Layout(s) && FirstOfEachRowBooked(s)
    ensures Allocate(s, 7) == Ok([2, 3, 4, 5, 6, 7, 9])
  {
    var free := FreeSeats(s);
    FirstSevenFree(s);
    forall r ensures !RowFits(free, r, 7) {
      NoRowHasSeven(s, r);
    }
    Fallback(s, 7);
    IdsOfFirstSevenFree(s);
  }
}
