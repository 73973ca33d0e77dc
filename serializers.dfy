/** The booking serializer: what a client may send, the validation that runs
    before a booking is stored, and the user-name field it reports. */
module Serializers {
  import opened Common
  import opened Models
  import opened Query

  /** The fields a client may write. Total price, status and booking date are
      read-only, so they have no place here. `user` is a required writable key
      (`None` when the body leaves it out); creation overwrites it afterwards.
      `room` is a key into the room table; a body without one is modelled by a
      key past the end of the table, which fails in the same way. */
  datatype BookingData = BookingData(
    user: Option<nat>,
    room: nat,
    checkIn: int,
    checkOut: int,
    guests: SmallUint,
    specialRequests: Option<string>)

  /** `CheckOutNotAfterCheckIn` is keyed `check_out_date`, `RoomUnavailable` is keyed `room`. */
  datatype ValidationError = CheckOutNotAfterCheckIn | RoomUnavailable

  /** `BookingSerializer.validate` against the bookings stored so far. */
  function ValidateBooking(data: BookingData, table: seq<Booking>): (r: Result<BookingData, ValidationError>)
    ensures r == Failure(CheckOutNotAfterCheckIn) <==> data.checkOut <= data.checkIn
    ensures r == Failure(RoomUnavailable) <==>
            data.checkIn < data.checkOut
            && exists i :: 0 <= i < |table| && Blocks(table[i], data.room, data.checkIn, data.checkOut)
    ensures r.Success? ==> r.value == data
  {
    BookedIff(table, data.room, data.checkIn, data.checkOut);
    if data.checkOut <= data.checkIn then Failure(CheckOutNotAfterCheckIn)
    else if Booked(table, data.room, data.checkIn, data.checkOut) then Failure(RoomUnavailable)
    else Success(data)
  }

  /** The booking built from validated data: the requester as owner, the default
      status and no total yet (the first save computes it). */
  function NewBooking(id: nat, user: nat, data: BookingData): (b: Booking)
    ensures b.id == id && b.user == user && b.room == data.room
    ensures b.checkIn == data.checkIn && b.checkOut == data.checkOut && b.guests == data.guests
    ensures b.specialRequests == data.specialRequests
    ensures b.status == DefaultStatus && b.totalPrice == 0
  {
    Booking(id, user, data.room, data.checkIn, data.checkOut, data.guests, data.specialRequests, 0, DefaultStatus)
  }

  /** Bookings that enter the table only after passing validation keep every room
      free of double bookings, whatever the room's price. */
  lemma ValidatedBookingPreservesInvariant(table: seq<Booking>, data: BookingData, user: nat, price: int)
    requires BookingInvariant(table)
    requires ValidateBooking(data, table).Success?
    ensures BookingInvariant(table + [Priced(NewBooking(|table|, user, data), price)])
  {
    AppendUnbookedPreserves(table, Priced(NewBooking(|table|, user, data), price));
  }

  /** The query does not leave out the booking being edited: re-validating dates
      that overlap a stored pending or confirmed booking of the same room fails,
      even when that booking is the one being changed. */
  lemma RevalidatingOverlappingDatesFails(table: seq<Booking>, k: nat, data: BookingData)
    requires k < |table| && table[k].status.HoldsRoom() && table[k].room == data.room
    requires data.checkIn < data.checkOut
    requires Overlaps(table[k].checkIn, table[k].checkOut, data.checkIn, data.checkOut)
    ensures ValidateBooking(data, table) == Failure(RoomUnavailable)
  {
    assert Blocks(table[k], data.room, data.checkIn, data.checkOut);
  }

  /** Room 0 is held by a confirmed booking for days [1, 5). A request for [3, 6)
      is refused; one for [5, 7), which starts on its check-out day, is accepted. */
  lemma OverlapScenarios(b: Booking)
    requires b.room == 0 && b.status == Confirmed && b.checkIn == 1 && b.checkOut == 5
    ensures ValidateBooking(BookingData(Some(7), 0, 3, 6, 2, None), [b]) == Failure(RoomUnavailable)
    ensures ValidateBooking(BookingData(Some(7), 0, 5, 7, 2, None), [b]) == Success(BookingData(Some(7), 0, 5, 7, 2, None))
  {
    assert Blocks([b][0], 0, 3, 6);
  }

  // ---- user_name: the full name with surrounding whitespace stripped, else the username

  /** The characters Python's `str.strip()` removes. */
  predicate IsSpace(c: char) {
    || ('\t' <= c <= '\r')
    || ('\U{1C}' <= c <= ' ')
    || c == '\U{85}' || c == '\U{A0}' || c == '\U{1680}'
    || ('\U{2000}' <= c <= '\U{200A}')
    || c == '\U{2028}' || c == '\U{2029}' || c == '\U{202F}' || c == '\U{205F}' || c == '\U{3000}'
  }

  /** Every character of `s` in positions [lo, hi) is whitespace. */
  predicate SpaceBetween(s: string, lo: int, hi: int)
    requires 0 <= lo <= hi <= |s|
  {
    forall i :: lo <= i < hi ==> IsSpace(s[i])
  }

  predicate AllSpace(s: string) {
    SpaceBetween(s, 0, |s|)
  }

  /** `s` without its leading whitespace: a suffix of `s` preceded only by whitespace. */
  function TrimStart(s: string): (r: string)
    ensures |r| <= |s| && r == s[|s| - |r|..]
    ensures SpaceBetween(s, 0, |s| - |r|)
    ensures r == [] || !IsSpace(r[0])
  {
    if s != [] && IsSpace(s[0]) then
      var r := TrimStart(s[1..]);
      assert forall i :: 1 <= i < |s| ==> s[i] == s[1..][i - 1];
      r
    else s
  }

  /** `s` without its trailing whitespace: a prefix of `s` followed only by whitespace. */
  function TrimEnd(s: string): (r: string)
    ensures |r| <= |s| && r == s[..|r|]
    ensures SpaceBetween(s, |r|, |s|)
    ensures r == [] || !IsSpace(r[|r| - 1])
  {
    if s != [] && IsSpace(s[|s| - 1]) then
      var r := TrimEnd(s[..|s| - 1]);
      assert forall i :: 0 <= i < |s| - 1 ==> s[i] == s[..|s| - 1][i];
      r
    else s
  }

  /** `r` is a slice of `s` with nothing but whitespace before and after it. */
  predicate SlicedFromSpace(s: string, r: string) {
    exists i :: 0 <= i <= |s| - |r| && r == s[i..i + |r|] && SpaceBetween(s, 0, i) && SpaceBetween(s, i + |r|, |s|)
  }

  /** Cutting leading whitespace and then trailing whitespace leaves such a slice. */
  lemma TrimmedSlice(s: string, t: string, r: string)
    requires |t| <= |s| && t == s[|s| - |t|..] && SpaceBetween(s, 0, |s| - |t|)
    requires |r| <= |t| && r == t[..|r|] && SpaceBetween(t, |r|, |t|)
    ensures SlicedFromSpace(s, r)
  {
    var k := |s| - |t|;
    assert forall i :: k <= i < |s| ==> s[i] == t[i - k];
    assert 0 <= k <= |s| - |r| && r == s[k..k + |r|] && SpaceBetween(s, 0, k) && SpaceBetween(s, k + |r|, |s|);
  }

  /** The same cut leaves no whitespace at either end, leaves nothing exactly when
      the input is all whitespace, and leaves an input without surrounding
      whitespace as it is. */
  lemma TrimmedEnds(s: string, t: string, r: string)
    requires |t| <= |s| && t == s[|s| - |t|..] && SpaceBetween(s, 0, |s| - |t|) && (t == [] || !IsSpace(t[0]))
    requires |r| <= |t| && r == t[..|r|] && SpaceBetween(t, |r|, |t|) && (r == [] || !IsSpace(r[|r| - 1]))
    ensures r == [] || (!IsSpace(r[0]) && !IsSpace(r[|r| - 1]))
    ensures r == [] <==> AllSpace(s)
    ensures s != [] && !IsSpace(s[0]) && !IsSpace(s[|s| - 1]) ==> r == s
  {
    if r != [] {
      assert r[0] == t[0];
      assert !AllSpace(s) by { assert s[|s| - |t|] == t[0]; }
    }
    if s != [] && !IsSpace(s[0]) && !IsSpace(s[|s| - 1]) {
      assert t == s;
    }
  }

  /** Python's `str.strip()`: the input with its surrounding whitespace removed. */
  function Strip(s: string): (r: string)
    ensures r == [] || (!IsSpace(r[0]) && !IsSpace(r[|r| - 1]))
    ensures r == [] <==> AllSpace(s)
    ensures s != [] && !IsSpace(s[0]) && !IsSpace(s[|s| - 1]) ==> r == s
    ensures SlicedFromSpace(s, r)
  {
    var t := TrimStart(s);
    var r := TrimEnd(t);
    TrimmedSlice(s, t, r);
    TrimmedEnds(s, t, r);
    r
  }

  lemma StripIdempotent(s: string)
    ensures Strip(Strip(s)) == Strip(s)
  {
  }

  lemma AllSpaceConcat(a: string, b: string)
    ensures AllSpace(a + b) <==> AllSpace(a) && AllSpace(b)
  {
    if AllSpace(a + b) {
      assert forall i :: 0 <= i < |a| ==> (a + b)[i] == a[i];
      assert forall i :: 0 <= i < |b| ==> (a + b)[|a| + i] == b[i];
    }
  }

  /** `get_user_name`: "first last" stripped, or the username when that is empty. */
  function UserName(firstName: string, lastName: string, username: string): (r: string)
    ensures AllSpace(firstName) && AllSpace(lastName) ==> r == username
    ensures !(AllSpace(firstName) && AllSpace(lastName)) ==>
            r == Strip(firstName + " " + lastName) && r != [] && !IsSpace(r[0]) && !IsSpace(r[|r| - 1])
  {
    var full := firstName + " " + lastName;
    AllSpaceConcat(firstName, " ");
    AllSpaceConcat(firstName + " ", lastName);
    assert AllSpace(" ") by { assert IsSpace(" "[0]); }
    var stripped := Strip(full);
    if stripped != [] then stripped else username
  }

  lemma UserNameFullName()
    ensures UserName("Ada", "Lovelace", "ada") == "Ada Lovelace"
  {
    var full := "Ada" + " " + "Lovelace";
    assert full == "Ada Lovelace";
    assert !IsSpace(full[0]) && !IsSpace(full[|full| - 1]);
    assert !AllSpace("Ada") by { assert !IsSpace("Ada"[0]); }
  }

  lemma UserNameFallsBack()
    ensures UserName("", " ", "ada") == "ada"
  {
    assert AllSpace(" ") by { assert IsSpace(" "[0]); }
  }
}
