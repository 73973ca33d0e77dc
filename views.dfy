/** The room and booking endpoints: the availability search, which bookings a
    user sees, booking creation on the user's behalf, and cancellation. */
module Views {
  import opened Common
  import opened Models
  import opened Query
  import opened Serializers

  // ---- POST /rooms/check_availability/

  /** A date field of the request body. `Missing` (no key) and `Blank` (empty
      text) are falsy; a present value either parses as YYYY-MM-DD, giving a
      day number, or does not. */
  datatype DateInput = Missing | Blank | Malformed | Day(day: int) {
    predicate Given() { Malformed? || Day? }
  }

  /** The optional capacity field: absent or falsy, text that `int()` reads as
      `n`, or text it refuses. */
  datatype CapacityInput = NoCapacity | Number(n: int) | NotANumber

  /** The three 400 answers. A capacity `int()` refuses raises the same error as
      a malformed date, because one handler catches both. */
  datatype AvailabilityError = MissingDates | InvalidFormat | DatesOutOfOrder

  /** A room the search offers: marked available, and held by no pending or
      confirmed booking that shares a night with [checkIn, checkOut). */
  predicate IsFree(room: Room, bookings: seq<Booking>, checkIn: int, checkOut: int) {
    room.isAvailable && !Booked(bookings, room.id, checkIn, checkOut)
  }

  /** The rooms the search loop keeps, in room-table order. */
  function FreeRooms(rooms: seq<Room>, bookings: seq<Booking>, checkIn: int, checkOut: int): (r: seq<Room>)
    ensures forall room :: room in r <==> room in rooms && IsFree(room, bookings, checkIn, checkOut)
    ensures IsSubsequence(r, rooms)
    decreases |rooms|
  {
    if rooms == [] then []
    else
      var rest := FreeRooms(rooms[..|rooms| - 1], bookings, checkIn, checkOut);
      var last := rooms[|rooms| - 1];
      assert rooms == rooms[..|rooms| - 1] + [last];
      if IsFree(last, bookings, checkIn, checkOut) then rest + [last] else rest
  }

  /** Each free room appears as often as in the room table. */
  lemma {:induction false} FreeRoomsCounts(rooms: seq<Room>, bookings: seq<Booking>, checkIn: int, checkOut: int)
    ensures forall room :: multiset(FreeRooms(rooms, bookings, checkIn, checkOut))[room]
                           == if IsFree(room, bookings, checkIn, checkOut) then multiset(rooms)[room] else 0
    decreases |rooms|
  {
    if rooms != [] {
      FreeRoomsCounts(rooms[..|rooms| - 1], bookings, checkIn, checkOut);
      assert rooms == rooms[..|rooms| - 1] + [rooms[|rooms| - 1]];
    }
  }

  /** The capacity post-filter. */
  function WithCapacity(rooms: seq<Room>, n: int): (r: seq<Room>)
    ensures forall room :: room in r <==> room in rooms && room.capacity >= n
    ensures IsSubsequence(r, rooms)
    decreases |rooms|
  {
    if rooms == [] then []
    else
      var rest := WithCapacity(rooms[..|rooms| - 1], n);
      var last := rooms[|rooms| - 1];
      assert rooms == rooms[..|rooms| - 1] + [last];
      if last.capacity >= n then rest + [last] else rest
  }

  /** Each room large enough appears as often as in the input. */
  lemma {:induction false} WithCapacityCounts(rooms: seq<Room>, n: int)
    ensures forall room :: multiset(WithCapacity(rooms, n))[room] == if room.capacity >= n then multiset(rooms)[room] else 0
    decreases |rooms|
  {
    if rooms != [] {
      WithCapacityCounts(rooms[..|rooms| - 1], n);
      assert rooms == rooms[..|rooms| - 1] + [rooms[|rooms| - 1]];
    }
  }

  /** The answer of the availability search. `int(capacity)` runs inside the
      comprehension, once per free room, so a capacity it refuses is only an
      error when some room is free. */
  function Availability(rooms: seq<Room>, bookings: seq<Booking>, checkIn: DateInput, checkOut: DateInput,
                        capacity: CapacityInput): (r: Result<seq<Room>, AvailabilityError>)
    ensures r == Failure(MissingDates) <==> !checkIn.Given() || !checkOut.Given()
    ensures r == Failure(InvalidFormat) <==>
            checkIn.Given() && checkOut.Given()
            && (checkIn.Malformed? || checkOut.Malformed?
                || (checkIn.day < checkOut.day && capacity.NotANumber?
                    && FreeRooms(rooms, bookings, checkIn.day, checkOut.day) != []))
    ensures r == Failure(DatesOutOfOrder) <==> checkIn.Day? && checkOut.Day? && checkOut.day <= checkIn.day
    ensures r.Success? ==> checkIn.Day? && checkOut.Day? && checkIn.day < checkOut.day
    ensures r.Success? ==> IsSubsequence(r.value, rooms)
    ensures r.Success? && checkIn.Day? && checkOut.Day? ==>
            forall room :: room in r.value ==>
              IsFree(room, bookings, checkIn.day, checkOut.day)
              && (capacity.Number? ==> room.capacity >= capacity.n)
    ensures r.Success? && !capacity.Number? && checkIn.Day? && checkOut.Day? ==>
            forall room :: room in rooms && IsFree(room, bookings, checkIn.day, checkOut.day) ==> room in r.value
    ensures r.Success? && capacity.Number? && checkIn.Day? && checkOut.Day? ==>
            forall room ::
              room in rooms && IsFree(room, bookings, checkIn.day, checkOut.day) && room.capacity >= capacity.n
              ==> room in r.value
  {
    if !checkIn.Given() || !checkOut.Given() then Failure(MissingDates)
    else if checkIn.Malformed? || checkOut.Malformed? then Failure(InvalidFormat)
    else if checkOut.day <= checkIn.day then Failure(DatesOutOfOrder)
    else
      var free := FreeRooms(rooms, bookings, checkIn.day, checkOut.day);
      match capacity
      case NoCapacity => Success(free)
      case Number(n) =>
        var r := WithCapacity(free, n);
        SubsequenceTransitive(r, free, rooms);
        Success(r)
      case NotANumber => if free == [] then Success([]) else Failure(InvalidFormat)
  }

  /** `RoomViewSet.check_availability`: walk the available rooms, keep those no
      booking holds, then apply the capacity filter. */
  method CheckAvailability(rooms: seq<Room>, bookings: seq<Booking>, checkIn: DateInput, checkOut: DateInput,
                           capacity: CapacityInput) returns (r: Result<seq<Room>, AvailabilityError>)
    ensures r == Availability(rooms, bookings, checkIn, checkOut, capacity)
  {
    if !checkIn.Given() || !checkOut.Given() {
      return Failure(MissingDates);
    }
    if checkIn.Malformed? || checkOut.Malformed? {
      return Failure(InvalidFormat);
    }
    var ci, co := checkIn.day, checkOut.day;
    if co <= ci {
      return Failure(DatesOutOfOrder);
    }
    var available: seq<Room> := [];
    var i := 0;
    while i < |rooms|
      invariant 0 <= i <= |rooms|
      invariant available == FreeRooms(rooms[..i], bookings, ci, co)
    {
      var room := rooms[i];
      if room.isAvailable && !Booked(bookings, room.id, ci, co) {
        available := available + [room];
      }
      assert rooms[..i + 1][..i] == rooms[..i];
      i := i + 1;
    }
    assert rooms[..i] == rooms;
    match capacity {
      case NoCapacity =>
        r := Success(available);
      case Number(n) =>
        r := Success(WithCapacity(available, n));
      case NotANumber =>
        r := if available == [] then Success([]) else Failure(InvalidFormat);
    }
  }

  /** A booking that cannot hold the requested stay (cancelled or completed, or
      outside it, such as one ending on the check-in day) leaves the free rooms alone. */
  lemma {:induction false} NonBlockingBookingKeepsFreeRooms(rooms: seq<Room>, bookings: seq<Booking>, b: Booking,
                                                           checkIn: int, checkOut: int)
    requires !b.status.HoldsRoom() || b.checkOut <= checkIn || b.checkIn >= checkOut
    ensures FreeRooms(rooms, bookings + [b], checkIn, checkOut) == FreeRooms(rooms, bookings, checkIn, checkOut)
    decreases |rooms|
  {
    if rooms != [] {
      NonBlockingBookingKeepsFreeRooms(rooms[..|rooms| - 1], bookings, b, checkIn, checkOut);
      NonBlockingBookingIsIgnored(bookings, b, rooms[|rooms| - 1].id, checkIn, checkOut);
    }
  }

  /** Cancelled and completed bookings, and bookings outside the requested stay,
      never change the search's answer. */
  lemma NonBlockingBookingKeepsAvailability(rooms: seq<Room>, bookings: seq<Booking>, b: Booking,
                                            checkIn: DateInput, checkOut: DateInput, capacity: CapacityInput)
    requires checkIn.Day? && checkOut.Day? ==>
             !b.status.HoldsRoom() || b.checkOut <= checkIn.day || b.checkIn >= checkOut.day
    ensures Availability(rooms, bookings + [b], checkIn, checkOut, capacity)
         == Availability(rooms, bookings, checkIn, checkOut, capacity)
  {
    if checkIn.Day? && checkOut.Day? {
      NonBlockingBookingKeepsFreeRooms(rooms, bookings, b, checkIn.day, checkOut.day);
    }
  }

  // ---- /bookings/

  /** The authenticated user making the request. */
  datatype Requester = Requester(id: nat, isStaff: bool)

  /** Staff see every booking; anyone else only their own. */
  predicate CanSee(requester: Requester, b: Booking) {
    requester.isStaff || b.user == requester.id
  }

  /** The bookings that belong to `user`, in table order. */
  function OwnedBy(table: seq<Booking>, user: nat): (r: seq<Booking>)
    ensures forall b :: b in r <==> b in table && b.user == user
    ensures IsSubsequence(r, table)
    decreases |table|
  {
    if table == [] then []
    else
      var rest := OwnedBy(table[..|table| - 1], user);
      var last := table[|table| - 1];
      assert table == table[..|table| - 1] + [last];
      if last.user == user then rest + [last] else rest
  }

  /** Each of the user's bookings appears as often as in the table. */
  lemma {:induction false} OwnedByCounts(table: seq<Booking>, user: nat)
    ensures forall b :: multiset(OwnedBy(table, user))[b] == if b.user == user then multiset(table)[b] else 0
    decreases |table|
  {
    if table != [] {
      OwnedByCounts(table[..|table| - 1], user);
      assert table == table[..|table| - 1] + [table[|table| - 1]];
    }
  }

  /** `BookingViewSet.get_queryset`. */
  function VisibleBookings(table: seq<Booking>, requester: Requester): (r: seq<Booking>)
    ensures forall b :: b in r <==> b in table && CanSee(requester, b)
    ensures requester.isStaff ==> r == table
    ensures IsSubsequence(r, table)
  {
    if requester.isStaff then
      SubsequenceReflexive(table);
      table
    else OwnedBy(table, requester.id)
  }

  /** Creation fails on the required `room` and `user` keys (missing, or naming
      no row; both are reported together, each flag saying whether its key
      failed), or on validation. A missing `room` is a room key past the end of
      the table (see `BookingData`). */
  datatype CreateError = UnresolvedKeys(room: bool, user: bool) | Invalid(reason: ValidationError)

  /** The `user` key of the body names a stored user. */
  predicate UserResolves(db: Database, data: BookingData)
    reads db
  {
    data.user.Some? && data.user.value in db.users
  }

  /** `POST /bookings/`: resolve the `room` and `user` keys, validate, then
      `perform_create` saves the booking with the requester as its owner,
      whatever user the body named. */
  method CreateBooking(db: Database, requester: Requester, data: BookingData) returns (r: Result<Booking, CreateError>)
    requires db.Valid()
    modifies db`bookings
    ensures db.Valid()
    ensures r.Failure? && r.error.UnresolvedKeys? <==> data.room >= |db.rooms| || !UserResolves(db, data)
    ensures r.Failure? && r.error.UnresolvedKeys? ==>
            r.error.room == (data.room >= |db.rooms|) && r.error.user == !UserResolves(db, data)
    ensures data.room < |db.rooms| && UserResolves(db, data) && ValidateBooking(data, old(db.bookings)).Failure? ==>
            r == Failure(Invalid(ValidateBooking(data, old(db.bookings)).error))
    ensures r.Success? <==>
            data.room < |db.rooms| && UserResolves(db, data) && ValidateBooking(data, old(db.bookings)).Success?
    ensures r.Failure? ==> db.bookings == old(db.bookings)
    ensures r.Success? ==>
            && db.bookings == old(db.bookings) + [r.value]
            && r.value == Priced(NewBooking(|old(db.bookings)|, requester.id, data), db.rooms[data.room].pricePerNight)
            && r.value.user == requester.id
            && r.value.status == Pending
            && r.value.totalPrice == db.rooms[data.room].pricePerNight * (data.checkOut - data.checkIn)
    ensures BookingInvariant(old(db.bookings)) ==> BookingInvariant(db.bookings)
  {
    var userResolves := data.user.Some? && data.user.value in db.users;
    if data.room >= |db.rooms| || !userResolves {
      return Failure(UnresolvedKeys(data.room >= |db.rooms|, !userResolves));
    }
    var checked := ValidateBooking(data, db.bookings);
    if checked.Failure? {
      return Failure(Invalid(checked.error));
    }
    ghost var before := db.bookings;
    var saved := db.SaveBooking(NewBooking(|db.bookings|, requester.id, checked.value));
    if BookingInvariant(before) {
      ValidatedBookingPreservesInvariant(before, data, requester.id, db.rooms[data.room].pricePerNight);
    }
    r := Success(saved);
  }

  datatype CancelError = NotFound | NotCancellable

  /** `POST /bookings/{id}/cancel/`: only a visible pending or confirmed booking
      can be cancelled; the change is written with `Booking.save`. */
  method Cancel(db: Database, requester: Requester, id: nat) returns (r: Result<Booking, CancelError>)
    requires db.Valid()
    modifies db`bookings
    ensures db.Valid()
    ensures r == Failure(NotFound) <==> !(id < |old(db.bookings)| && CanSee(requester, old(db.bookings)[id]))
    ensures r == Failure(NotCancellable) <==>
            id < |old(db.bookings)| && CanSee(requester, old(db.bookings)[id])
            && !old(db.bookings)[id].status.HoldsRoom()
    ensures r.Failure? ==> db.bookings == old(db.bookings)
    ensures r.Success? ==>
            && id < |old(db.bookings)|
            && r.value == Priced(old(db.bookings)[id].(status := Cancelled),
                                 db.rooms[old(db.bookings)[id].room].pricePerNight)
            && db.bookings == old(db.bookings)[id := r.value]
    ensures r.Success? && old(db.bookings)[id].totalPrice != 0 ==>
            r.value == old(db.bookings)[id].(status := Cancelled)
    ensures BookingInvariant(old(db.bookings)) ==> BookingInvariant(db.bookings)
  {
    if id >= |db.bookings| || !CanSee(requester, db.bookings[id]) {
      return Failure(NotFound);
    }
    var booking := db.bookings[id];
    if !booking.status.HoldsRoom() {
      return Failure(NotCancellable);
    }
    ghost var before := db.bookings;
    booking := booking.(status := Cancelled);
    var saved := db.SaveBooking(booking);
    if BookingInvariant(before) {
      ReleasePreserves(before, id, saved);
    }
    r := Success(saved);
  }
}
