# Homestay booking engine, modelled in Dafny

This project models the booking logic of a homestay and village-tourism web
backend. The parts it covers:

- the overlap rule that decides whether a room is free for a stay [check-in, check-out);
- the availability search (`POST /rooms/check_availability/`), including its capacity post-filter;
- booking validation: date order first, then overlap;
- the price rule in `Booking.save`;
- booking creation on the requester's behalf, the per-user booking list, and cancellation;
- the user serializer's profile update and registration check;
- the image-URL and user-name fields the serializers report.

Modelling choices:

- Dates are whole day numbers.
- Prices are whole cents, because the decimal fields have two places.
- The room and booking tables are sequences held by a `Database` object, which also holds the set of user keys.
- A row's primary key is its position in its table.
- The framework's request handling is replaced by method parameters.

Files, one module each:

| file | module | models |
|---|---|---|
| common.dfy | `Common` | `Option`, `Result`, order-preserving subsequences |
| media.dfy | `Media` | image files and the URL getters |
| models.dfy | `Models` | `homestay/models.py`: status choices, rooms, bookings, `Booking.save`, review rating |
| query.dfy | `Query` | the overlap filter shared by the search and validation; the no-double-booking invariant |
| serializers.dfy | `Serializers` | `homestay/serializers.py`: `BookingSerializer.validate`, read-only fields, `get_user_name` |
| views.dfy | `Views` | `homestay/views.py`: `check_availability`, `get_queryset`, `perform_create`, `cancel` |
| users.dfy | `Users` | `users/serializers.py`: `UserSerializer.update`, `RegisterSerializer` |

The central results:

- `Query.AppendUnbookedPreserves` and `Serializers.ValidatedBookingPreservesInvariant` prove that
  bookings entering the table only through validation keep the invariant. The invariant says that
  no two pending or confirmed bookings on one room share a night. `Views.CreateBooking` and
  `Views.Cancel` carry that invariant as a postcondition.
- `Views.CheckAvailability` is a loop proved equal to `Views.Availability`. That function's contract states:
  - every error case, each as an if-and-only-if;
  - every returned room is available, free and large enough;
  - every free room is returned when no capacity is given, and every free room large enough when one is;
  - the result is an order-preserving subsequence of the room table.

Behaviour of the code that is easy to miss; the model follows the code:

- `cancel` saves through `Booking.save`, so cancelling a booking whose stored total is 0 also
  re-prices it. The status is the only change only when the stored total is non-zero.
  `Views.Cancel` states both cases.
- `user` is a required, writable key of the booking serializer, so a create request must name an
  existing user even though `perform_create` then replaces it with the requester.
- `int(capacity)` runs inside the list comprehension, once per free room. A capacity that is not
  an integer is therefore an error only when at least one room is free. With no free room the
  answer is an empty list.
- The overlap query in `validate` does not leave out the booking being edited
  (`Serializers.RevalidatingOverlappingDatesFails`).
- Nothing compares `number_of_guests` with the room's capacity.
- A booking may be made for a room whose `is_available` flag is false. Only the search looks at that flag.

## Model

| member | source | states |
|---|---|---|
| `Media.ImageUrl` | homestay/serializers.py:12-18 | no URL exactly when no file is attached; the stored URL without a request; the absolute URL built from the request when there is one (the room, family and profile getters at homestay/serializers.py:30-36, 48-54 and users/serializers.py:32-39 are the same function) |
| `Models.ParseStatus` | homestay/models.py:82-87 | a stored status code is accepted only if it is one of the four choices, and it reads back to that code |
| `Models.StatusCodeRoundTrip` | homestay/models.py:82-87 | every status survives being stored as its code and read back |
| `Models.Priced` | homestay/models.py:118-123 | saving changes only the total; a non-zero total is kept; an unset total becomes nightly price × nights |
| `Models.PriceWorkedExample` | homestay/models.py:122-123 | 100.00 a night for three nights gives 300.00 |
| `Models.PriceIsStableOnceSet` | homestay/models.py:120 | once a non-zero total is stored, later saves keep it even after the room's price changes |
| `Models.ZeroTotalIsRepriced` | homestay/models.py:120-123 | a total that came out as 0 is recomputed with the room's price at the next save |
| `Models.UnorderedDatesPrice` | homestay/models.py:118-124 | save does not check date order: an empty stay costs 0 and a reversed stay gets a negative total |
| `Models.ValidateRating` | homestay/models.py:150-153 | a rating is accepted exactly when it lies in 1..5, and then unchanged; below 1 is the minimum error |
| `Models.Database.SaveBooking` | homestay/models.py:118-124 | the row written is `Priced` of the booking at its room's price; a new key appends a row, an existing key overwrites that row only |
| `Query.OverlapsSymmetric` | homestay/views.py:85-86 | the overlap test gives the same answer with the two stays swapped |
| `Query.AdjacentStaysDoNotOverlap` | homestay/views.py:85-86 | a stay ending on the day another begins does not clash with it, in either order |
| `Query.NonEmptyStayOverlapsItself` | homestay/serializers.py:77-78 | a stay with check-out after check-in clashes with itself |
| `Query.OverlappingBookings` | homestay/serializers.py:74-79 | the query selects exactly the bookings on the room, pending or confirmed, with check-in before the new check-out and check-out after the new check-in, in table order |
| `Query.OverlappingBookingsCounts` | homestay/serializers.py:74-79 | each selected booking appears in the query result exactly as often as in the table, and no other booking appears |
| `Query.BookedIff` | homestay/serializers.py:81 | `.exists()` on the query holds exactly when some stored booking blocks the stay |
| `Query.NonBlockingBookingIsIgnored` | homestay/views.py:82-87 | adding a cancelled or completed booking, one on another room, or one outside the stay leaves the query's answer unchanged |
| `Query.AppendUnbookedPreserves` | homestay/serializers.py:74-82 | appending an ordered booking the query finds nothing against keeps "no two holding bookings on one room overlap" |
| `Query.ReleasePreserves` | homestay/views.py:128-135 | moving a booking to a status that does not hold its room, with the same dates, keeps the invariant |
| `Serializers.ValidateBooking` | homestay/serializers.py:70-84 | the `check_out_date` error exactly when check-out is not after check-in, whatever the table holds; otherwise the `room` error exactly when a stored pending or confirmed booking of that room overlaps; otherwise the data unchanged |
| `Serializers.NewBooking` | homestay/serializers.py:62-65 | a new booking takes room, dates, guests and special requests from the data, the given owner, the default `pending` status and no total |
| `Serializers.ValidatedBookingPreservesInvariant` | homestay/serializers.py:74-82 | a validated booking, saved at any price, keeps the no-double-booking invariant |
| `Serializers.RevalidatingOverlappingDatesFails` | homestay/serializers.py:74-81 | re-validating dates that overlap a stored holding booking of the same room is refused, including that booking's own dates |
| `Serializers.OverlapScenarios` | homestay/serializers.py:71-82 | with room booked [1, 5) confirmed, a request for [3, 6) is refused and one for [5, 7) is accepted |
| `Serializers.TrimStart` | homestay/serializers.py:68 | the result is a suffix of the input, preceded only by whitespace, not starting with whitespace |
| `Serializers.TrimEnd` | homestay/serializers.py:68 | the result is a prefix of the input, followed only by whitespace, not ending with whitespace |
| `Serializers.TrimmedSlice` | homestay/serializers.py:68 | cutting leading and then trailing whitespace leaves a slice of the input with only whitespace before and after it |
| `Serializers.TrimmedEnds` | homestay/serializers.py:68 | that cut leaves no whitespace at either end, leaves nothing exactly when the input is all whitespace, and keeps an input without surrounding whitespace whole |
| `Serializers.Strip` | homestay/serializers.py:68 | the result is a slice of the input with only whitespace before and after it; no whitespace at either end; empty exactly when the input is all whitespace; an input already without surrounding whitespace is returned as is |
| `Serializers.StripIdempotent` | homestay/serializers.py:68 | stripping twice is stripping once |
| `Serializers.UserName` | homestay/serializers.py:67-68 | the username when both names are blank, otherwise the stripped "first last", non-empty and without surrounding whitespace |
| `Serializers.UserNameFullName` | homestay/serializers.py:67-68 | "Ada" and "Lovelace" give "Ada Lovelace" |
| `Serializers.UserNameFallsBack` | homestay/serializers.py:67-68 | blank names give the username |
| `Views.FreeRooms` | homestay/views.py:77-90 | exactly the available rooms that no holding booking blocks for the stay, in table order |
| `Views.FreeRoomsCounts` | homestay/views.py:77-90 | each free room appears in the search loop's list exactly as often as in the room table, and no other room appears |
| `Views.WithCapacity` | homestay/views.py:93-95 | exactly the rooms with capacity at least the requested one, in order |
| `Views.WithCapacityCounts` | homestay/views.py:93-95 | each room large enough appears exactly as often as in the input, and no other room appears |
| `Views.Availability` | homestay/views.py:56-104 | a missing or empty date is its own error; a malformed date, or a non-integer capacity while some room is free, is the date-format error; check-out not after check-in is its own error; a success lists only free, available rooms large enough for the capacity, in order; it lists every free room when no capacity is given, and every free room large enough when one is |
| `Views.CheckAvailability` | homestay/views.py:53-104 | the loop over the rooms and the capacity filter return exactly `Availability` |
| `Views.NonBlockingBookingKeepsFreeRooms` | homestay/views.py:82-90 | a cancelled or completed booking, or one outside the stay, never removes a room from the free rooms |
| `Views.NonBlockingBookingKeepsAvailability` | homestay/views.py:82-90 | such a booking never changes the search's answer; one ending on the check-in day does not block it |
| `Views.OwnedBy` | homestay/views.py:117 | exactly the bookings whose owner is the user, in order |
| `Views.OwnedByCounts` | homestay/views.py:117 | each of the user's bookings appears exactly as often as in the table, and no other booking appears |
| `Views.VisibleBookings` | homestay/views.py:112-117 | staff see the whole table; anyone else sees exactly their own bookings, in order |
| `Views.CreateBooking` | homestay/views.py:119-120 | a `room` key naming no room (a missing one is modelled as such a key) or a missing or unknown `user` key (reported together, one flag per key) or a failed validation stores nothing and reports why; otherwise one row is appended, owned by the requester, `pending`, priced at nights × nightly price; the invariant is kept |
| `Views.Cancel` | homestay/views.py:122-138 | a booking the requester cannot see is not found; one not pending or confirmed is refused and nothing changes; otherwise only that row changes, to `cancelled` and re-saved, with everything else unchanged when its total is non-zero; the invariant is kept |
| `Users.Lookup` | users/serializers.py:44 | a found value is the one stored under the key; nothing is found only when no entry has the key |
| `Users.Put` | users/serializers.py:53-55 | setting one attribute changes that attribute to the value and no other attribute, id or email |
| `Users.SetFieldsKeeps` | users/serializers.py:53-55 | the loop never touches id, email or the image |
| `Users.SetFieldsUnlisted` | users/serializers.py:53-55 | the loop leaves an attribute that is not in the data alone |
| `Users.SetFieldsListed` | users/serializers.py:53-55 | after the loop every supplied attribute other than the image holds the supplied value |
| `Users.MergeKeepsReadOnly` | users/serializers.py:27 | id and email never change through the serializer |
| `Users.MergeKeepsUnlisted` | users/serializers.py:53-55 | fields absent from the validated data keep their value |
| `Users.MergeOverwritesListed` | users/serializers.py:53-55 | every supplied field other than the image takes the supplied value |
| `Users.MergeImage` | users/serializers.py:44-50 | the image is replaced exactly when a file is supplied; absent or null keeps the old one |
| `Users.User.Update` | users/serializers.py:41-58 | the user afterwards is `Merge` of the user before; the old image is deleted exactly when a new file is supplied and an old one exists |
| `Users.ValidateRegistration` | users/serializers.py:69-72 | the `password` error exactly when the two passwords differ, otherwise the attributes unchanged |
| `Users.CreateAccount` | users/serializers.py:74-83 | the new user has the given id, the email and username as `create_user`'s normalisations return them, each given name (empty when none was given), no phone number, bio or image; the password is handed on unchanged and the confirmation dropped |
| `Users.Register` | users/serializers.py:69-83 | the unique-field error exactly when a stored user already has the e-mail or the username, with one flag per field, and it comes before the password check; the `password` error exactly when neither is taken and the passwords differ |
| `Users.RegisterCreatesConfirmedAccount` | users/serializers.py:69-83 | registration succeeds exactly when neither the e-mail nor the username is taken and the passwords agree; the account has the confirmed password, the given id, the normalised username and email, the given names (empty where none were given), and no phone number, bio or image |
| `Users.RegisteringTwiceFails` | users/models.py:9 | once an account is stored, the same registration again is refused on the e-mail when normalisation left it unchanged, and on the username exactly when normalisation left that unchanged |

## Left out

- Routing tables, admin registration and the village content models, views and serializers:
  they are declarative records and framework wiring, with no logic of their own.
- Permission classes and `get_permissions` overrides: the framework evaluates them. Every modelled
  request comes from an authenticated user.
- The `featured` endpoint (homestay/views.py:24-33): a database aggregate with floating-point averages and database ordering.
- The generic update, partial-update and destroy endpoints of the booking view set:
  - they are framework defaults;
  - deleting rows would break the key-is-position convention of `Database`;
  - an edit can change a booking's owner, because `user` is writable in the booking serializer.
- Date parsing with `strptime`: a date field is an opaque "parsed to a day number, or malformed" input (`Views.DateInput`).
  A JSON date value that is not text (a number, say) makes `strptime` raise a type error
  (homestay/views.py:66), which the `ValueError` handler at homestay/views.py:100 does not catch, so the
  request ends in a server error; that path is not modelled.
- Capacity parsing:
  - `int(capacity)` is likewise an opaque "parsed, or refused" input;
  - a JSON value that is neither text nor a number would raise an uncaught type error, and that is not modelled.
- Database limits:
  - decimal columns hold at most 10 digits, so a total above 99,999,999.99 would fail to store; the model does not bound prices;
  - the table's default ordering is taken to be insertion order.
- Password hashing, the `validate_password` strength rules, image file storage and deletion, and
  `build_absolute_uri`:
  - they are framework or storage calls;
  - the deleted file is returned by `Users.User.Update`;
  - the absolute-URL builder is a parameter of `Media.ImageUrl`.
- Users.Register: of the field validators the serializer derives from the user model, only the
  unique e-mail and username checks are modelled. Required keys, e-mail format, the username's
  characters and length, and password strength are taken to have passed: `Users.Registration` stands
  for attributes that did. The uniqueness checks compare the values as given, while the stored
  values are normalised, so an e-mail that differs from a stored one only in its domain's case passes
  the check and then fails at the database's unique constraint with a server error. That path is
  not modelled.
- Users.User.Update: its input is the serializer's validated data, so the unique-username check on
  an update has already run and is not modelled.
- Users.CreateAccount: `create_user` lower-cases the e-mail's domain and Unicode-normalises the
  username before storing them. Both are framework code, so they are uninterpreted functions in
  `Users.UserManager`; the model states only that the stored values are their results.
- Views.Cancel: `get_object` looks the booking up in the view's queryset after applying the filter
  query parameters (`status`, `room`, `check_in_date`, `check_out_date`, homestay/views.py:109-110).
  The model takes every request to carry no filter parameters. With a filter the booking does not
  match, the source answers "not found" where the model cancels; an invalid filter value gets a 400
  that `Views.CancelError` cannot express. The same filters narrow the booking list, which
  `Views.VisibleBookings` models unfiltered.
- The clock columns `booking_date`, `created_at` and `updated_at` (homestay/models.py:107-109): they
  are filled from the clock, which is outside the model. Every save, including the one in `cancel`,
  also rewrites `updated_at`.
- Views.CreateBooking: the field-level checks on the other keys (dates that do not parse, a guest
  count outside 0..32767, a missing date or guest count) are not modelled; `BookingData` holds
  those fields already parsed.
- The read-then-write race between `validate` and `save`: requests are modelled as sequential.
- `Review` records other than their rating bounds: the review endpoints are plain framework CRUD.
