/** The homestay records: rooms, bookings with their status and price rule,
    review ratings, and the booking table that `Booking.save` writes to. */
module Models {
  import opened Common

  /** Positive small integer columns hold 0 ..= 32767 on every supported database. */
  type SmallUint = n: int | 0 <= n <= 32767

  /** Booking status; a new booking starts as `Pending` (`DefaultStatus`). */
  datatype Status = Pending | Confirmed | Cancelled | Completed {
    /** Pending and confirmed bookings hold their room; cancelled and completed ones never do. */
    predicate HoldsRoom() { this == Pending || this == Confirmed }
  }

  const DefaultStatus: Status := Pending

  /** The code stored in the status column for each choice. */
  function StatusCode(s: Status): string {
    match s
    case Pending => "pending"
    case Confirmed => "confirmed"
    case Cancelled => "cancelled"
    case Completed => "completed"
  }

  /** Reads a stored status code back; anything outside the four choices is refused. */
  function ParseStatus(code: string): (r: Option<Status>)
    ensures r.Some? ==> StatusCode(r.value) == code
  {
    if code == "pending" then Some(Pending)
    else if code == "confirmed" then Some(Confirmed)
    else if code == "cancelled" then Some(Cancelled)
    else if code == "completed" then Some(Completed)
    else None
  }

  lemma StatusCodeRoundTrip(s: Status)
    ensures ParseStatus(StatusCode(s)) == Some(s)
  {
  }

  /** Prices are whole cents (two decimal places); dates are day numbers. */
  datatype Room = Room(id: nat, capacity: SmallUint, pricePerNight: int, isAvailable: bool)

  /** A stored booking. An unset total price is represented by 0: both are falsy
      and `Booking.save` treats them alike. */
  datatype Booking = Booking(
    id: nat,
    user: nat,
    room: nat,
    checkIn: int,
    checkOut: int,
    guests: SmallUint,
    specialRequests: Option<string>,
    totalPrice: int,
    status: Status)

  /** Whole days between check-in and check-out; not checked to be positive. */
  function Nights(b: Booking): int {
    b.checkOut - b.checkIn
  }

  /** The booking as `Booking.save` leaves it for a room charging `pricePerNight`. */
  function Priced(b: Booking, pricePerNight: int): (r: Booking)
    ensures r.(totalPrice := b.totalPrice) == b
    ensures b.totalPrice != 0 ==> r == b
    ensures b.totalPrice == 0 ==> r.totalPrice == pricePerNight * Nights(b)
  {
    if b.totalPrice == 0 then b.(totalPrice := pricePerNight * Nights(b)) else b
  }

  /** 100.00 a night for three nights costs 300.00. */
  lemma PriceWorkedExample(b: Booking)
    requires b.totalPrice == 0 && b.checkOut == b.checkIn + 3
    ensures Priced(b, 10000).totalPrice == 30000
  {
  }

  /** Once a non-zero total is stored, later saves keep it even if the room's price changed. */
  lemma PriceIsStableOnceSet(b: Booking, price: int, laterPrice: int)
    requires Priced(b, price).totalPrice != 0
    ensures Priced(Priced(b, price), laterPrice) == Priced(b, price)
  {
  }

  /** A total that came out as 0 (a free room, or an empty stay) is recomputed,
      with the room's price at that time, on the next save. */
  lemma ZeroTotalIsRepriced(b: Booking, price: int, laterPrice: int)
    requires b.totalPrice == 0 && price * Nights(b) == 0
    ensures Priced(Priced(b, price), laterPrice).totalPrice == laterPrice * Nights(b)
  {
  }

  /** Saving does not check date order: an empty stay costs 0 and a reversed one is negative. */
  lemma UnorderedDatesPrice(b: Booking, price: int)
    requires b.totalPrice == 0 && price > 0
    ensures b.checkOut == b.checkIn ==> Priced(b, price).totalPrice == 0
    ensures b.checkOut < b.checkIn ==> Priced(b, price).totalPrice < 0
  {
    if b.checkOut < b.checkIn {
      assert Nights(b) <= -1;
      assert price * Nights(b) <= price * -1;
    }
  }

  /** A review rating: the validators admit 1 ..= 5. */
  type Rating = n: int | 1 <= n <= 5 witness 1

  datatype RatingError = BelowMinimum | AboveMaximum

  function ValidateRating(n: int): (r: Result<Rating, RatingError>)
    ensures r.Success? <==> 1 <= n <= 5
    ensures r.Success? ==> r.value == n
    ensures r == Failure(BelowMinimum) <==> n < 1
  {
    if n < 1 then Failure(BelowMinimum)
    else if n > 5 then Failure(AboveMaximum)
    else Success(n)
  }

  datatype Review = Review(user: nat, homestay: nat, booking: Option<nat>, rating: Rating, comment: string)

  /** The room and booking tables. A row's primary key is its position
      (rows are never deleted in this model). */
  class Database {
    var rooms: seq<Room>
    var bookings: seq<Booking>
    /** The primary keys of the user table. */
    var users: set<nat>

    ghost predicate Valid()
      reads this
    {
      && (forall i :: 0 <= i < |rooms| ==> rooms[i].id == i)
      && (forall i :: 0 <= i < |bookings| ==> bookings[i].id == i && bookings[i].room < |rooms|)
    }

    constructor (rooms: seq<Room>, users: set<nat>)
      requires forall i :: 0 <= i < |rooms| ==> rooms[i].id == i
      ensures Valid() && this.rooms == rooms && this.users == users && bookings == []
    {
      this.rooms := rooms;
      this.users := users;
      bookings := [];
    }

    /** `Booking.save`: fill in the total price when it is unset, then insert the
        row (primary key one past the end) or overwrite the row with that key. */
    method SaveBooking(b: Booking) returns (saved: Booking)
      requires Valid()
      requires b.id <= |bookings| && b.room < |rooms|
      modifies this`bookings
      ensures Valid()
      ensures saved == Priced(b, rooms[b.room].pricePerNight)
      ensures bookings == if b.id == |old(bookings)| then old(bookings) + [saved]
                          else old(bookings)[b.id := saved]
    {
      saved := b;
      if saved.totalPrice == 0 {
        var nights := saved.checkOut - saved.checkIn;
        saved := saved.(totalPrice := rooms[saved.room].pricePerNight * nights);
      }
      if saved.id == |bookings| {
        bookings := bookings + [saved];
      } else {
        bookings := bookings[saved.id := saved];
      }
    }
  }
}
