/** The overlap rule and the booking query built on it. The same filter runs in
    the availability endpoint and in booking validation: bookings on one room,
    pending or confirmed, whose stay [check-in, check-out) shares a night with
    the requested one. */
module Query {
  import opened Common
  import opened Models

  /** Half-open stays [in1, out1) and [in2, out2) share a night. */
  predicate Overlaps(in1: int, out1: int, in2: int, out2: int) {
    in1 < out2 && out1 > in2
  }

  lemma OverlapsSymmetric(in1: int, out1: int, in2: int, out2: int)
    ensures Overlaps(in1, out1, in2, out2) <==> Overlaps(in2, out2, in1, out1)
  {
  }

  /** A stay that ends on the day another begins does not clash with it. */
  lemma AdjacentStaysDoNotOverlap(in1: int, day: int, out2: int)
    ensures !Overlaps(in1, day, day, out2) && !Overlaps(day, out2, in1, day)
  {
  }

  /** A non-empty stay clashes with itself. */
  lemma NonEmptyStayOverlapsItself(checkIn: int, checkOut: int)
    requires checkIn < checkOut
    ensures Overlaps(checkIn, checkOut, checkIn, checkOut)
  {
  }

  /** `b` keeps `room` from being booked for [checkIn, checkOut). */
  predicate Blocks(b: Booking, room: nat, checkIn: int, checkOut: int) {
    b.room == room && b.status.HoldsRoom() && Overlaps(b.checkIn, b.checkOut, checkIn, checkOut)
  }

  /** The bookings the overlap query selects, in table order. */
  function OverlappingBookings(table: seq<Booking>, room: nat, checkIn: int, checkOut: int): (r: seq<Booking>)
    ensures forall b :: b in r <==> b in table && Blocks(b, room, checkIn, checkOut)
    ensures IsSubsequence(r, table)
    decreases |table|
  {
    if table == [] then []
    else
      var rest := OverlappingBookings(table[..|table| - 1], room, checkIn, checkOut);
      var last := table[|table| - 1];
      assert table == table[..|table| - 1] + [last];
      if Blocks(last, room, checkIn, checkOut) then rest + [last] else rest
  }

  /** Each selected booking appears as often as in the table. */
  lemma {:induction false} OverlappingBookingsCounts(table: seq<Booking>, room: nat, checkIn: int, checkOut: int)
    ensures forall b :: multiset(OverlappingBookings(table, room, checkIn, checkOut))[b]
                        == if Blocks(b, room, checkIn, checkOut) then multiset(table)[b] else 0
    decreases |table|
  {
    if table != [] {
      OverlappingBookingsCounts(table[..|table| - 1], room, checkIn, checkOut);
      assert table == table[..|table| - 1] + [table[|table| - 1]];
    }
  }

  /** The query's `.exists()`. */
  predicate Booked(table: seq<Booking>, room: nat, checkIn: int, checkOut: int) {
    OverlappingBookings(table, room, checkIn, checkOut) != []
  }

  lemma BookedIff(table: seq<Booking>, room: nat, checkIn: int, checkOut: int)
    ensures Booked(table, room, checkIn, checkOut) <==>
            exists i :: 0 <= i < |table| && Blocks(table[i], room, checkIn, checkOut)
  {
    var r := OverlappingBookings(table, room, checkIn, checkOut);
    if r != [] {
      assert r[0] in r;
    }
  }

  /** Adding a booking that cannot block the request (cancelled or completed, on
      another room, or outside the requested stay, ending on its check-in day
      included) does not change whether the room is booked. */
  lemma {:induction false} NonBlockingBookingIsIgnored(table: seq<Booking>, b: Booking, room: nat, checkIn: int, checkOut: int)
    requires !b.status.HoldsRoom() || b.room != room || b.checkOut <= checkIn || b.checkIn >= checkOut
    ensures OverlappingBookings(table + [b], room, checkIn, checkOut) == OverlappingBookings(table, room, checkIn, checkOut)
  {
    assert (table + [b])[..|table + [b]| - 1] == table;
  }

  /** The table invariant: on any one room, no two pending or confirmed
      bookings share a night, and every booking's check-out follows its check-in. */
  predicate NoDoubleBooking(table: seq<Booking>) {
    forall i, j ::
      0 <= i < |table| && 0 <= j < |table| && i != j
      && table[i].room == table[j].room && table[i].status.HoldsRoom() && table[j].status.HoldsRoom()
      ==> !Overlaps(table[i].checkIn, table[i].checkOut, table[j].checkIn, table[j].checkOut)
  }

  predicate DatesOrdered(table: seq<Booking>) {
    forall i :: 0 <= i < |table| ==> table[i].checkIn < table[i].checkOut
  }

  predicate BookingInvariant(table: seq<Booking>) {
    NoDoubleBooking(table) && DatesOrdered(table)
  }

  /** Appending a booking the query finds nothing against keeps the invariant. */
  lemma AppendUnbookedPreserves(table: seq<Booking>, b: Booking)
    requires BookingInvariant(table)
    requires b.checkIn < b.checkOut
    requires !Booked(table, b.room, b.checkIn, b.checkOut)
    ensures BookingInvariant(table + [b])
  {
    var t := table + [b];
    forall i, j |
      0 <= i < |t| && 0 <= j < |t| && i != j
      && t[i].room == t[j].room && t[i].status.HoldsRoom() && t[j].status.HoldsRoom()
      ensures !Overlaps(t[i].checkIn, t[i].checkOut, t[j].checkIn, t[j].checkOut)
    {
      if i == |table| {
        assert t[j] in table && !Blocks(t[j], b.room, b.checkIn, b.checkOut);
      } else if j == |table| {
        assert t[i] in table && !Blocks(t[i], b.room, b.checkIn, b.checkOut);
      } else {
        assert t[i] == table[i] && t[j] == table[j];
      }
    }
  }

  /** Changing one booking to a status that does not hold its room, leaving its
      room and dates alone, keeps the invariant. */
  lemma ReleasePreserves(table: seq<Booking>, k: nat, b: Booking)
    requires BookingInvariant(table) && k < |table|
    requires !b.status.HoldsRoom()
    requires b.checkIn == table[k].checkIn && b.checkOut == table[k].checkOut
    ensures BookingInvariant(table[k := b])
  {
    var t := table[k := b];
    forall i, j |
      0 <= i < |t| && 0 <= j < |t| && i != j
      && t[i].room == t[j].room && t[i].status.HoldsRoom() && t[j].status.HoldsRoom()
      ensures !Overlaps(t[i].checkIn, t[i].checkOut, t[j].checkIn, t[j].checkOut)
    {
      assert i != k && j != k;
      assert t[i] == table[i] && t[j] == table[j];
    }
    assert DatesOrdered(t) by {
      forall i | 0 <= i < |t| ensures t[i].checkIn < t[i].checkOut {
        if i != k { assert t[i] == table[i]; }
      }
    }
  }
}
