# Conference booking core, modelled in Dafny

This project models the core of the ConferenceBooking web application: the in-memory repository that holds rooms, users and bookings, the request validation and result mapping of the booking API's `Create` action, and the seeding action `SetupController.Init`. It proves what these promise.

The central promise is that no room is ever double-booked. `TryCreateBooking` checks, in a fixed order, the title, the order of the endpoints, the duration bounds (15 minutes to 3 hours), that the room exists, and that no booking of the room overlaps the half-open UTC interval. It appends a booking only when every check passes. The model proves four things about this:

- the error reported is always the first check that fails;
- a failed call leaves the bookings unchanged;
- appending keeps the list free of double bookings exactly when the overlap check finds nothing;
- any sequence of calls therefore keeps the invariant.

## Modules

- `Text` (`text.dfy`): `char.IsWhiteSpace`, `string.IsNullOrWhiteSpace`, `string.Trim` and ordinal ignore-case equality on strings.
- `Time` (`time.dfy`): `DateTime` as ticks and a kind, the repository's `NormalizeToLocalWall` helper, and the bounds of a `DateOnly`.
  - A `TimeZoneInfo` is a pair of conversion functions, `fromUtc` and `toUtc`, about which nothing is assumed.
- `Lists` (`lists.dfy`): `FindIndex`, `RemoveAt` and `Where` on lists.
- `Models` (`models.dfy`): `Room`, `AppUser` and `Booking`, and the argument exceptions.
- `Schedule` (`schedule.dfy`): the decision `TryCreateBooking` makes, as a function of the rooms, the bookings and the arguments.
  - It also holds a reference definition (one predicate per check, plus its priority), the overlap predicate and the no-double-booking invariant.
- `Users` (`users.dfy`): `AddOrGetUser` as written, the corrected version the repository uses, and `FindUser`.
- `Repository` (`repository.dfy`): the class `InMemoryRepository`.
  - Its fields are the room, user and booking lists, and the key set of the per-room lock map.
  - Its methods update these in place. `Valid()` is the invariant every method keeps.
- `BookingApi` (`booking_api.dfy`): the request body `CreateRequest`, its `Title` annotations, `Validate`, the model-state errors, and `Create`.
- `Setup` (`setup.dfy`): `Init` and its idempotence.

## Inputs

- `Guid.NewGuid()` becomes an `id` argument. The repository's ghost set `issued` requires it to be fresh.
- `DateTime.UtcNow` becomes a `now` argument.
- `TimeZoneInfo.Local` becomes a `tz` argument.
- The session's login becomes a `login` argument of `Create`.

## Time conversions

- The code returns two different duration messages: "Minimum booking duration is 15 minutes." and "Maximum booking duration is 3 hours.".
- A UTC endpoint is first moved to the local wall clock, where the duration is measured. It is then converted back with `ConvertTimeToUtc`.
- The model assumes no round-trip law for the two conversions. It therefore makes no claim that a stored interval has its start before its end.

## Model

| member | source | states |
|---|---|---|
| Text.IsWhiteSpace | ConferenceBooking.Web/Services/InMemoryRepository.cs:122 | `char.IsWhiteSpace`: the space separators U+0020, U+00A0, U+1680, U+2000..U+200A, U+202F, U+205F and U+3000, the line and paragraph separators U+2028 and U+2029, and the controls U+0009..U+000D and U+0085 |
| Text.Trim | ConferenceBooking.Web/Services/InMemoryRepository.cs:40 | `name.Trim()` is no longer than the name, is empty exactly when the name is blank, and otherwise starts and ends with a non-white-space character |
| Text.TrimIsSlice | ConferenceBooking.Web/Services/InMemoryRepository.cs:78 | the trimmed string is a contiguous slice of the original, and what was cut off on both sides is white space only |
| Text.TrimIdempotent | ConferenceBooking.Web/Services/InMemoryRepository.cs:176 | trimming a trimmed title changes nothing, so stored names, logins and titles are fixed points of `Trim` |
| Text.IsBlank | ConferenceBooking.Web/Services/InMemoryRepository.cs:35 | `string.IsNullOrWhiteSpace` on a present string: every character is white space (the empty string included) |
| Text.EqualsIgnoreCase | ConferenceBooking.Web/Services/InMemoryRepository.cs:89 | `string.Equals(…, StringComparison.OrdinalIgnoreCase)`: equal after ASCII upper-casing |
| Text.EqualsIgnoreCaseCharwise | ConferenceBooking.Web/Services/InMemoryRepository.cs:76 | two strings are equal under `OrdinalIgnoreCase` iff they have the same length and agree character by character after upper-casing |
| Time.NormalizeToLocalWall | ConferenceBooking.Web/Services/InMemoryRepository.cs:126-134 | a `Utc` value becomes the zone's `ConvertTimeFromUtc` of its ticks; a value of kind `Local` or `Unspecified` is already wall-clock time and is returned unchanged |
| Time.DayStart | ConferenceBooking.Web/Services/InMemoryRepository.cs:97 | midnight of a day is a whole multiple of a day's ticks, and that multiple is the day number |
| Time.DayEnd | ConferenceBooking.Web/Services/InMemoryRepository.cs:98 | `TimeOnly.MaxValue` on a day is its last tick: after its midnight, one tick before the next day's midnight |
| Lists.FirstIndex | ConferenceBooking.Web/Services/InMemoryRepository.cs:50 | `FindIndex` returns -1 or a valid index; the element there matches, and no earlier element (no element at all, for -1) matches |
| Lists.FirstIndexFound | ConferenceBooking.Web/Services/InMemoryRepository.cs:50-51 | `FindIndex` finds an index iff some element matches |
| Lists.FirstIndexAppend | ConferenceBooking.Web/Services/InMemoryRepository.cs:76-79 | after `Add`, a first match that existed before is still the first match; otherwise the added element is found iff it matches |
| Lists.RemoveAt | ConferenceBooking.Web/Services/InMemoryRepository.cs:53 | `RemoveAt(k)` shortens the list by one, keeps the elements before `k` and shifts the ones after it down by one |
| Lists.RemoveAtSubset | ConferenceBooking.Web/Services/InMemoryRepository.cs:53 | `RemoveAt` introduces no element that was not in the list |
| Lists.Filter | ConferenceBooking.Web/Services/InMemoryRepository.cs:104-105 | `Where` keeps every element satisfying the predicate and only such elements |
| Lists.FilterAppend | ConferenceBooking.Web/Services/InMemoryRepository.cs:104-116 | `Where` distributes over concatenation, so the result keeps the list's order |
| Schedule.RoomExists | ConferenceBooking.Web/Services/InMemoryRepository.cs:161 | `_rooms.Any(r => r.Id == roomId)`: some room has the id |
| Schedule.HasOverlap | ConferenceBooking.Web/Services/InMemoryRepository.cs:167 | the collision check: some booking of the room ends after the new start and starts before the new end |
| Schedule.Overlaps | ConferenceBooking.Web/Services/InMemoryRepository.cs:105 | the overlap test `b.EndUtc > startUtc && b.StartUtc < endUtc` on half-open intervals, used by both the day query and the collision check |
| Schedule.Message | ConferenceBooking.Web/Services/InMemoryRepository.cs:122-170 | the six error strings `TryCreateBooking` returns, character for character; each is a sentence ending in a full stop |
| Schedule.MessagesDistinct | ConferenceBooking.Web/Services/InMemoryRepository.cs:122-170 | two errors have the same string iff they are the same error, so the string alone tells which check failed |
| Schedule.WallDuration | ConferenceBooking.Web/Services/InMemoryRepository.cs:136-139 | the duration measured between the two normalised wall-clock endpoints; when neither endpoint is UTC it is the raw difference of the ticks |
| Schedule.UtcSlot | ConferenceBooking.Web/Services/InMemoryRepository.cs:144-145 | the stored interval: each normalised endpoint converted to UTC with the zone's `ConvertTimeToUtc` |
| Schedule.Decide | ConferenceBooking.Web/Services/InMemoryRepository.cs:122-171 | the decision of `TryCreateBooking`. A blank title is rejected first. A success stores the normalised endpoints converted to UTC and has passed the request checks, with an existing room and no overlapping booking of that room. A "Room not found." or overlap error is only reached after the request checks pass |
| Schedule.AppendKeepsNoDoubleBooking | ConferenceBooking.Web/Services/InMemoryRepository.cs:167-181 | on a clash-free list, appending a booking keeps it clash-free iff the collision check finds no booking of that room overlapping the new half-open interval |
| Schedule.AbuttingAllowedOverlapRefused | ConferenceBooking.Web/Services/InMemoryRepository.cs:167 | with identity conversions and a booking of the room for [9:00, 9:30), an attempt for [9:30, 10:00) succeeds and one for [9:15, 9:45) is refused with the overlap error |
| Schedule.DecideOkIffNoCheckRejects | ConferenceBooking.Web/Services/InMemoryRepository.cs:122-182 | a booking is created iff none of the six checks rejects the attempt, and it then stores the normalised endpoints converted to UTC |
| Schedule.DecideReportsFirstRejectingCheck | ConferenceBooking.Web/Services/InMemoryRepository.cs:122-171 | the error returned is `e` iff check `e` rejects and every check before it in the order title, range, too short, too long, room, overlap passes |
| Schedule.DecideOkGuarantees | ConferenceBooking.Web/Services/InMemoryRepository.cs:122-181 | a created booking has a non-blank title, raw start before raw end, a wall-clock duration in [15 min, 3 h], an existing room, and no overlapping booking of that room |
| Schedule.NewBooking | ConferenceBooking.Web/Services/InMemoryRepository.cs:173-180 | the booking appended on success: the room id, the trimmed title, the UTC interval and the creator's login, with the id and creation time the record initialisers supply |
| Schedule.Commit | ConferenceBooking.Web/Services/InMemoryRepository.cs:167-181 | the booking list after one call: the old list plus the new booking on success, the old list on any error |
| Schedule.CommitKeepsNoDoubleBooking | ConferenceBooking.Web/Services/InMemoryRepository.cs:158-183 | one `TryCreateBooking` call keeps the booking list free of double bookings |
| Schedule.ReplayKeepsNoDoubleBooking | ConferenceBooking.Web/Services/InMemoryRepository.cs:167-181 | any sequence of calls, each against the rooms of its moment, never double-books a room |
| Schedule.CommitAppendsAtMostOne | ConferenceBooking.Web/Services/InMemoryRepository.cs:120-185 | a call keeps the existing bookings as a prefix and adds exactly one booking on success, none on failure |
| Users.AddOrGetAsWritten | ConferenceBooking.Web/Services/InMemoryRepository.cs:69-81 | `AddOrGetUser` as written: it fails iff the login or the role is blank, with the login checked first and the source's messages. On success the old users stay as a prefix, at most one user is added, and the returned user is in the new list |
| Users.AddOrGet | ConferenceBooking.Web/Services/InMemoryRepository.cs:69-81 | the corrected find-or-add, looking up the trimmed login. It has the same error cases, and on success keeps the old users as a prefix, adds at most one user, and returns a user of the new list |
| Users.AsWrittenReturnsMatch | ConferenceBooking.Web/Services/InMemoryRepository.cs:76-80 | as written, on success the list is unchanged iff some stored login equals the raw login up to case, and the first such user is returned; otherwise `AppUser(Trim(login), role)` is appended and returned |
| Users.AsWrittenAddsDuplicate | ConferenceBooking.Web/Services/InMemoryRepository.cs:76-79 | as written, calling `AddOrGetUser(" bob", "User")` twice stores two users whose logins are equal up to case |
| Users.AddOrGetTrimsFirst | ConferenceBooking.Web/Services/InMemoryRepository.cs:69-81 | the corrected find-or-add is the code as written applied to the trimmed login |
| Users.AsWrittenAgreesOnTrimmedLogin | ConferenceBooking.Web/Services/InMemoryRepository.cs:76-78 | for a login that is already trimmed, the code as written and the corrected version return the same thing |
| Users.AddOrGetReturnsMatch | ConferenceBooking.Web/Services/InMemoryRepository.cs:76-80 | on success, the returned user matches the login up to case and is in the new list; the list is unchanged iff some user already matched, and otherwise grows by exactly that user |
| Users.AddOrGetIdempotent | ConferenceBooking.Web/Services/InMemoryRepository.cs:69-81 | a second call with the same login returns the same user and adds nothing, whatever role it names |
| Users.AddOrGetKeepsInvariant | ConferenceBooking.Web/Services/InMemoryRepository.cs:69-81 | find-or-add keeps logins pairwise distinct up to case, and keeps every login trimmed and non-empty and every role non-blank |
| Users.Find | ConferenceBooking.Web/Services/InMemoryRepository.cs:84-91 | `FindUser` gives nothing for a blank login; otherwise it gives the first user whose login matches up to case, or nothing when none matches |
| Users.FindAfterAddOrGet | ConferenceBooking.Web/Services/InMemoryRepository.cs:69-91 | after adding or getting a login, `FindUser` of the trimmed login returns exactly the user that call returned |
| Repository.RemoveRoomKeepsInvariant | ConferenceBooking.Web/Services/InMemoryRepository.cs:50-53 | removing the first room with an id keeps rooms well formed with distinct ids, and leaves no room with that id |
| Repository.InMemoryRepository.constructor | ConferenceBooking.Web/Services/InMemoryRepository.cs:10-15 | a new repository has no rooms, users, bookings or locks, and satisfies the invariant |
| Repository.InMemoryRepository.GetRooms | ConferenceBooking.Web/Services/InMemoryRepository.cs:18-31 | returns every room, field for field, in list order |
| Repository.InMemoryRepository.AddRoom | ConferenceBooking.Web/Services/InMemoryRepository.cs:33-44 | a blank name throws `ArgumentException("name")`, checked first; a capacity of 0 or less throws `ArgumentOutOfRange("capacity")`; both leave the rooms unchanged. Otherwise exactly one room is appended, with the trimmed name, a fresh id and the creation time. Users, bookings and locks are untouched, and the invariant is kept |
| Repository.InMemoryRepository.DeleteRoom | ConferenceBooking.Web/Services/InMemoryRepository.cs:46-58 | returns true iff a room with the id existed, removes only the first such room, and leaves no room with that id; bookings, including the room's own, are untouched |
| Repository.InMemoryRepository.GetUsers | ConferenceBooking.Web/Services/InMemoryRepository.cs:61-67 | returns every user, login and role, in list order |
| Repository.InMemoryRepository.AddOrGetUser | ConferenceBooking.Web/Services/InMemoryRepository.cs:69-82 | the result and the new user list are those of the corrected find-or-add; rooms, bookings and locks are untouched, and the invariant (logins distinct up to case) is kept |
| Repository.InMemoryRepository.FindUser | ConferenceBooking.Web/Services/InMemoryRepository.cs:84-91 | nothing for a blank login; otherwise the first user whose login matches up to case, or nothing |
| Repository.InMemoryRepository.GetBookingsForDay | ConferenceBooking.Web/Services/InMemoryRepository.cs:94-118 | returns exactly the stored bookings, of any room, that overlap the day's local bounds converted to UTC, each once and in list order (the `Where` filter of the list) |
| Repository.InMemoryRepository.TryCreateBooking | ConferenceBooking.Web/Services/InMemoryRepository.cs:120-185 | the result is the decision of the checks on the state before the call. On success the returned booking (trimmed title, UTC interval, creator, fresh id) is appended and nothing else; on failure the bookings are unchanged. The room's lock entry is created once the duration checks pass, even if the room is then not found. Rooms and users are untouched, and the no-double-booking invariant is kept |
| BookingApi.RawDuration | ConferenceBooking.Web/Controllers/Api/BookingApiController.cs:68 | `EndLocal - StartLocal`: the difference of the ticks, whatever the kinds |
| BookingApi.TitleErrors | ConferenceBooking.Web/Controllers/Api/BookingApiController.cs:55-57 | `[Required]` and `[StringLength(200, MinimumLength = 1)]` report nothing iff the title has a non-white-space character and at most 200 characters; the `Required` message comes first |
| BookingApi.Validate | ConferenceBooking.Web/Controllers/Api/BookingApiController.cs:59-79 | at most one result; none iff start is before end and 15 min <= duration <= 3 h, both bounds inclusive. Start >= end yields only "Start must be before end."; otherwise a too short or too long duration yields its own message. Every result names `StartLocal` and `EndLocal` |
| BookingApi.ErrorMessages | ConferenceBooking.Web/Controllers/Api/BookingApiController.cs:91 | the error messages of the results, one per result, in order |
| BookingApi.ModelErrors | ConferenceBooking.Web/Controllers/Api/BookingApiController.cs:44-79 | model validation reports no error iff the title passes its annotations, start is before end and the duration lies in [15 min, 3 h] |
| BookingApi.Create | ConferenceBooking.Web/Controllers/Api/BookingApiController.cs:86-103 | an invalid model gives a bad request with the first model error and leaves the repository untouched. Otherwise a repository failure gives a bad request with the repository's message unchanged, and a success gives the new booking's id with that booking appended |
| BookingApi.ValidModelOnlyFailsOnRoomOrSlot | ConferenceBooking.Web/Controllers/Api/BookingApiController.cs:59-79 | for a request that passes model validation and whose endpoints are both local or unspecified, the repository can only answer "Room not found." or the overlap error |
| BookingApi.MixedKindsPassValidationButNotRepository | ConferenceBooking.Web/Controllers/Api/BookingApiController.cs:61-78 | with a UTC start and a local end, a one-hour request in a zone two hours ahead of UTC passes `Validate` but the repository rejects it as too short |
| Setup.SeedOne | ConferenceBooking.Web/Controllers/SetupController.cs:24-26 | the user list after one `AddOrGetUser` of a seed, its returned user discarded |
| Setup.SeedAllUsers | ConferenceBooking.Web/Controllers/SetupController.cs:24-26 | the user list after `AddOrGetUser` for each seed in turn |
| Setup.NameTaken | ConferenceBooking.Web/Controllers/SetupController.cs:29-31 | the snapshot holds a room whose name equals the seed name up to case |
| Setup.PlannedRoom | ConferenceBooking.Web/Controllers/SetupController.cs:31-34 | the room one guarded `AddRoom` appends: none when the snapshot has the name, otherwise the seed room with its own id and clock reading |
| Setup.PlannedRooms | ConferenceBooking.Web/Controllers/SetupController.cs:29-34 | the rooms the four guarded `AddRoom` calls append, in seed order, each checked against the same snapshot |
| Setup.SeedUserStep | ConferenceBooking.Web/Controllers/SetupController.cs:24-26 | one seeding call only grows the user list; an acceptable seed's login is present afterwards; a user is appended only when no login matched |
| Setup.SeedAllUsersOnlyAppendsMissing | ConferenceBooking.Web/Controllers/SetupController.cs:24-26 | seeding users keeps the old users as a prefix, and every appended user is a seed whose login no old user had |
| Setup.SeedAllUsersCovers | ConferenceBooking.Web/Controllers/SetupController.cs:24-26 | after seeding, the login of every acceptable seed is present up to case |
| Setup.SeedAllUsersNoop | ConferenceBooking.Web/Controllers/SetupController.cs:24-26 | seeding a list that already has every seed login changes nothing |
| Setup.SeedAllUsersIdempotent | ConferenceBooking.Web/Controllers/SetupController.cs:24-26 | seeding users twice gives the same list as seeding once |
| Setup.SeedUsersWellFormed | ConferenceBooking.Web/Controllers/SetupController.cs:24-26 | the seed logins and roles are non-blank and the logins trimmed |
| Setup.SeededUsersPresent | ConferenceBooking.Web/Controllers/SetupController.cs:24-26 | after seeding, `admin`, `alice` and `bob` are each present up to case |
| Setup.PlannedRoomsExactly | ConferenceBooking.Web/Controllers/SetupController.cs:29-34 | a seed room is appended iff no room of the start-of-call snapshot has its name up to case, and nothing but seed rooms is appended |
| Setup.PlannedRoomsNone | ConferenceBooking.Web/Controllers/SetupController.cs:29-34 | against a snapshot that already has every seed name, no room is added |
| Setup.SeedRoomsIdempotent | ConferenceBooking.Web/Controllers/SetupController.cs:28-34 | seeding rooms again against the rooms the first run left adds none, whatever ids and clock the second run uses |
| Setup.SeedRoomsWellFormed | ConferenceBooking.Web/Controllers/SetupController.cs:31-34 | the seed room names are non-blank and trimmed, and their capacities positive, so every guarded `AddRoom` succeeds |
| Setup.AddOrGetSeedUser | ConferenceBooking.Web/Controllers/SetupController.cs:24-26 | one seeding `AddOrGetUser` updates the users as the find-or-add says and touches nothing else |
| Setup.AddRoomIfMissing | ConferenceBooking.Web/Controllers/SetupController.cs:31-34 | one guarded `AddRoom` appends the seed room iff the snapshot lacks its name, and touches nothing else |
| Setup.Init | ConferenceBooking.Web/Controllers/SetupController.cs:21-37 | after `Init` the users are the seeding of the old users and the rooms are the old rooms plus the planned seed rooms, each with its own id and clock reading; bookings and locks are untouched, and the invariant is kept |
| Setup.InitIdempotent | ConferenceBooking.Web/Controllers/SetupController.cs:23-34 | a second `Init` with no change in between adds no user and no room |

## Left out

- Null strings and null requests: every string is present, so `IsNullOrWhiteSpace` is "empty or only white space".
- Unicode case mapping beyond ASCII: `OrdinalIgnoreCase` is modelled as ASCII upper-casing.
- The range of `DateTime` and `DateOnly`: ticks are unbounded integers.
- `ConvertTimeToUtc` and daylight saving: the conversion functions are arbitrary.
  - The invalid-time exception for a skipped local hour is not modelled.
  - Nothing is assumed about round trips or monotonicity.
- Locks and concurrency: the model runs operations one at a time. The lock map is kept only as the set of its keys.
  - Within `TryCreateBooking`, the catalog lock `_roomLock` covers only the find-or-insert into the lock map; elsewhere it also guards `GetRooms`, `AddRoom` and `DeleteRoom`.
  - The overlap check and the append are made atomic by the global `lock (_bookings)`, so the no-double-booking invariant also holds under concurrency.
  - The room-exists check runs under the per-room lock only. `AddRoom` and `DeleteRoom` change `_rooms` under `_roomLock`, so a room can be deleted between that check and the append. The sequential model does not capture this race, which has two consequences in the code:
    - a booking can be stored for a room that no longer exists;
    - `_rooms.Any` can enumerate the `List<Room>` while `AddRoom` or `DeleteRoom` changes it, and the enumerator then throws `InvalidOperationException` out of `TryCreateBooking`.
- Aliasing of stored records: `AddRoom`, `AddOrGetUser`, `FindUser` and `TryCreateBooking` return the stored `Room`, `AppUser` or `Booking` object itself, and these classes have public setters.
  - The model's records are values, so it cannot express a caller changing a stored booking's times or a stored room's name through such a reference, bypassing every check and lock.
  - The invariants of `Valid()` (no double booking, well-formed and distinct rooms and users) hold in the code only because no caller mutates what these methods return; `Create` only reads the new booking's `Id`, and the other callers discard the result.
- `Guid.NewGuid`, `DateTime.UtcNow`, `TimeZoneInfo.Local` and the session become arguments.
- The ASP.NET plumbing: routing, JSON binding, the `AdminOnly` and `LoggedInOnly` filters, and HTTP result bodies.
  - `[ApiController]` also answers an invalid model with its own automatic 400 response before `Create` runs. That filter is not part of this model; `Create` is modelled as its code reads.
- The "Validation error." fallback in `Create`: every model error in the model carries a message, so the fallback is never reached.
- The order in which `ModelState` lists errors of different keys: the model lists the `Title` errors, and reaches `Validate` only when the title passes.
  - `ModelState` holds each `Validate` result under both member names, `StartLocal` and `EndLocal`, so its message appears twice there; the model lists it once. `Create` reads only the first message, and both copies are the same.
- BookingApi.TitleErrors: counts the title's length in characters, where .NET counts UTF-16 code units.
- The `GetForDay` action, the other controllers, the views and `calendar.js` are not part of this model.
- Cancelling bookings and the per-user upcoming-bookings query are not part of this model.

## Findings

| source | as written | input that shows it | evidently intended | confidence | as-written member | corrected member |
|---|---|---|---|---|---|---|
| ConferenceBooking.Web/Services/InMemoryRepository.cs:76-78 | the lookup compares stored logins with the untrimmed `login`, but the new user stores `login.Trim()` | `AddOrGetUser(" bob", "User")` twice on an empty repository stores two users with login `bob` (Users.AsWrittenAddsDuplicate) | find-or-add keyed by the login that is stored, so a second call returns the first user (Users.AddOrGetIdempotent) | high; not executed | Users.AddOrGetAsWritten | Users.AddOrGet |
