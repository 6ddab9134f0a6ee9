/**
 * `InMemoryRepository`: the room, user and booking lists and the operations that
 * change them in place, modelled one operation at a time (the README says
 * what the locks do and do not serialise).
 */
module Repository {
  import opened Wrappers
  import opened Text
  import opened Time
  import opened Models
  import opened Lists
  import opened Schedule
  import Users

  /** The tuple `(ok, error, booking)` that `TryCreateBooking` returns: `ok` with
      the booking, or not `ok` with one of the error strings. */
  datatype CreateResult = Created(booking: Booking) | Rejected(error: BookingError)

  /** The matcher `r => r.Id == id`. */
  function HasId(id: Guid): Room -> bool {
    (r: Room) => r.id == id
  }

  /** A room as `AddRoom` stores it: a non-blank trimmed name and a positive capacity. */
  predicate RoomWellFormed(r: Room) {
    r.name != [] && Trim(r.name) == r.name && r.capacity > 0
  }

  predicate RoomsWellFormed(rooms: seq<Room>) {
    forall r :: r in rooms ==> RoomWellFormed(r)
  }

  /** No two rooms share an id (each came from its own `Guid.NewGuid`). */
  predicate RoomIdsDistinct(rooms: seq<Room>) {
    forall i, j :: 0 <= i < j < |rooms| ==> rooms[i].id != rooms[j].id
  }

  /** A booking as `TryCreateBooking` stores it: a non-blank trimmed title. */
  predicate BookingWellFormed(b: Booking) {
    b.title != [] && Trim(b.title) == b.title
  }

  predicate BookingsWellFormed(bookings: seq<Booking>) {
    forall b :: b in bookings ==> BookingWellFormed(b)
  }

  /** Removing the first room with an id keeps the room list well formed, and
      when ids are distinct no room with that id is left. */
  lemma RemoveRoomKeepsInvariant(rooms: seq<Room>, id: Guid)
    requires RoomsWellFormed(rooms) && RoomIdsDistinct(rooms)
    requires FirstIndex(rooms, HasId(id)) >= 0
    ensures var rest := RemoveAt(rooms, FirstIndex(rooms, HasId(id)));
            && RoomsWellFormed(rest) && RoomIdsDistinct(rest)
            && forall r :: r in rest ==> r.id != id
  {
    var k := FirstIndex(rooms, HasId(id));
    var rest := RemoveAt(rooms, k);
    RemoveAtSubset(rooms, k);
    forall i, j | 0 <= i < j < |rest| ensures rest[i].id != rest[j].id {
      var i', j' := if i < k then i else i + 1, if j < k then j else j + 1;
      assert rest[i] == rooms[i'] && rest[j] == rooms[j'] && i' < j';
    }
    forall r | r in rest ensures r.id != id {
      var i :| 0 <= i < |rest| && rest[i] == r;
      var i' := if i < k then i else i + 1;
      assert rooms[i'] == r && i' != k;
    }
  }

  class InMemoryRepository {
    var rooms: seq<Room>
    var users: seq<AppUser>
    var bookings: seq<Booking>
    /** The keys of the per-room lock map `_roomLocks`. */
    var roomLocks: set<Guid>
    /** Every id `Guid.NewGuid` has handed to a room or booking of this repository. */
    ghost var issued: set<Guid>

    ghost predicate Valid()
      reads this
    {
      && NoDoubleBooking(bookings)
      && RoomsWellFormed(rooms)
      && RoomIdsDistinct(rooms)
      && (forall i :: 0 <= i < |rooms| ==> rooms[i].id in issued)
      && BookingsWellFormed(bookings)
      && (forall i :: 0 <= i < |bookings| ==> bookings[i].id in issued)
      && Users.LoginsDistinct(users)
      && Users.UsersWellFormed(users)
    }

    constructor ()
      ensures Valid()
      ensures rooms == [] && users == [] && bookings == [] && roomLocks == {}
    {
      rooms := [];
      users := [];
      bookings := [];
      roomLocks := {};
      issued := {};
    }

    /** `GetRooms`: a copy of every room, in list order. */
    function GetRooms(): (r: seq<Room>)
      reads this
      ensures |r| == |rooms| && forall i :: 0 <= i < |r| ==> r[i] == rooms[i]
    {
      rooms
    }

    /** `AddRoom`: a blank name or a capacity of zero or less throws and changes
        nothing; otherwise one room with the trimmed name, the capacity, a fresh
        id and the creation time is appended and returned. */
    method AddRoom(name: string, capacity: int32, id: Guid, now: int) returns (r: Result<Room, ArgumentError>)
      requires Valid() && id !in issued
      modifies this
      ensures Valid()
      ensures IsBlank(name) ==> r == Err(ArgumentException("name", "Name cannot be empty."))
      ensures !IsBlank(name) && capacity <= 0 ==> r == Err(ArgumentOutOfRange("capacity", "Capacity must be positive."))
      ensures r.Err? ==> rooms == old(rooms) && issued == old(issued)
      ensures r.Ok? <==> !IsBlank(name) && capacity > 0
      ensures r.Ok? ==> r.value == Room(id, Trim(name), capacity, now) && rooms == old(rooms) + [r.value]
                        && issued == old(issued) + {id}
      ensures users == old(users) && bookings == old(bookings) && roomLocks == old(roomLocks)
    {
      if IsBlank(name) {
        return Err(ArgumentException("name", "Name cannot be empty."));
      }
      if capacity <= 0 {
        return Err(ArgumentOutOfRange("capacity", "Capacity must be positive."));
      }
      var room := Room(id, Trim(name), capacity, now);
      TrimIdempotent(name);
      rooms := rooms + [room];
      issued := issued + {id};
      return Ok(room);
    }

    /** `DeleteRoom`: removes the first room with the id and reports whether
        there was one. Bookings of the room are kept. */
    method DeleteRoom(id: Guid) returns (deleted: bool)
      requires Valid()
      modifies this
      ensures Valid()
      ensures deleted <==> exists r :: r in old(rooms) && r.id == id
      ensures deleted ==> rooms == RemoveAt(old(rooms), FirstIndex(old(rooms), HasId(id)))
      ensures !deleted ==> rooms == old(rooms)
      ensures forall r :: r in rooms ==> r.id != id
      ensures users == old(users) && bookings == old(bookings) && roomLocks == old(roomLocks)
      ensures issued == old(issued)
    {
      var idx := FirstIndex(rooms, HasId(id));
      FirstIndexFound(rooms, HasId(id));
      if idx >= 0 {
        RemoveRoomKeepsInvariant(rooms, id);
        rooms := RemoveAt(rooms, idx);
        return true;
      }
      return false;
    }

    /** `GetUsers`: a copy of every user, in list order. */
    function GetUsers(): (r: seq<AppUser>)
      reads this
      ensures |r| == |users| && forall i :: 0 <= i < |r| ==> r[i] == users[i]
    {
      users
    }

    /** `AddOrGetUser`, with the lookup made on the trimmed login (see the
        README): a blank login or role throws; a login that matches a stored one
        up to case returns that user and adds nothing; otherwise one user with
        the trimmed login is appended and returned. */
    method AddOrGetUser(login: string, role: string) returns (r: Result<AppUser, ArgumentError>)
      requires Valid()
      modifies this
      ensures Valid()
      ensures match Users.AddOrGet(old(users), login, role)
              case Ok((u, users')) => r == Ok(u) && users == users'
              case Err(e) => r == Err(e) && users == old(users)
      ensures rooms == old(rooms) && bookings == old(bookings) && roomLocks == old(roomLocks)
      ensures issued == old(issued)
    {
      if IsBlank(login) {
        return Err(ArgumentException("login", "Login cannot be empty."));
      }
      if IsBlank(role) {
        return Err(ArgumentException("role", "Role cannot be empty."));
      }
      var key := Trim(login);
      var idx := Users.LoginIndex(users, key);
      if idx >= 0 {
        return Ok(users[idx]);
      }
      Users.AddOrGetKeepsInvariant(users, login, role);
      var user := AppUser(key, role);
      users := users + [user];
      return Ok(user);
    }

    /** `FindUser`: nothing for a blank login, otherwise the first user whose
        login matches up to case. */
    function FindUser(login: string): (r: Option<AppUser>)
      reads this
      ensures IsBlank(login) ==> r == None
      ensures !IsBlank(login) && r == None ==> forall u :: u in users ==> !EqualsIgnoreCase(u.login, login)
      ensures r.Some? ==> exists k :: 0 <= k < |users| && users[k] == r.value
                                      && EqualsIgnoreCase(users[k].login, login)
                                      && forall i :: 0 <= i < k ==> !EqualsIgnoreCase(users[i].login, login)
    {
      Users.Find(users, login)
    }

    /** `GetBookingsForDay`: the bookings of every room that overlap the day's
        local bounds, midnight to its last tick, converted to UTC; in list
        order, as `Filter` keeps it (see `Lists.FilterAppend`). */
    function GetBookingsForDay(day: nat, tz: TimeZone): (r: seq<Booking>)
      reads this
      ensures forall i :: 0 <= i < |r| ==> r[i] in bookings && Overlaps(r[i], tz.toUtc(DayStart(day)), tz.toUtc(DayEnd(day)))
      ensures forall i :: 0 <= i < |bookings| && Overlaps(bookings[i], tz.toUtc(DayStart(day)), tz.toUtc(DayEnd(day))) ==> bookings[i] in r
      ensures r == Filter(bookings, (b: Booking) => Overlaps(b, tz.toUtc(DayStart(day)), tz.toUtc(DayEnd(day))))
    {
      var startUtc := tz.toUtc(DayStart(day));
      var endUtc := tz.toUtc(DayEnd(day));
      Filter(bookings, (b: Booking) => Overlaps(b, startUtc, endUtc))
    }

    /** `TryCreateBooking`: the checks of `Schedule.Decide` in order, then the
        append. A rejection leaves the bookings as they were; a success appends
        exactly the booking it returns. The per-room lock entry is created once
        the request checks pass, even when the room then turns out missing. */
    method TryCreateBooking(roomId: Guid, startLocal: DateTime, endLocal: DateTime, title: string,
                            createdByLogin: string, tz: TimeZone, id: Guid, now: int) returns (r: CreateResult)
      requires Valid() && id !in issued
      modifies this
      ensures Valid()
      ensures var a := Attempt(roomId, startLocal, endLocal, title, tz);
              match Decide(old(rooms), old(bookings), a)
              case Ok(slot) =>
                && r == Created(NewBooking(a, slot, createdByLogin, id, now))
                && bookings == old(bookings) + [r.booking]
                && issued == old(issued) + {id}
              case Err(e) =>
                && r == Rejected(e)
                && bookings == old(bookings)
                && issued == old(issued)
      ensures roomLocks == if PassesRequestChecks(Attempt(roomId, startLocal, endLocal, title, tz))
                           then old(roomLocks) + {roomId} else old(roomLocks)
      ensures rooms == old(rooms) && users == old(users)
    {
      ghost var a := Attempt(roomId, startLocal, endLocal, title, tz);
      if IsBlank(title) {
        return Rejected(TitleRequired);
      }
      if startLocal.ticks >= endLocal.ticks {
        return Rejected(StartNotBeforeEnd);
      }
      var startLocalWall := NormalizeToLocalWall(startLocal, tz);
      var endLocalWall := NormalizeToLocalWall(endLocal, tz);
      var duration := endLocalWall - startLocalWall;
      if duration < MinDuration {
        return Rejected(TooShort);
      }
      if duration > MaxDuration {
        return Rejected(TooLong);
      }
      var startUtc := tz.toUtc(startLocalWall);
      var endUtc := tz.toUtc(endLocalWall);
      roomLocks := roomLocks + {roomId};
      if !RoomExists(rooms, roomId) {
        return Rejected(RoomNotFound);
      }
      if HasOverlap(bookings, roomId, startUtc, endUtc) {
        return Rejected(SlotTaken);
      }
      var booking := Booking(id, roomId, Trim(title), startUtc, endUtc, createdByLogin, now);
      AppendKeepsNoDoubleBooking(bookings, booking);
      TrimIdempotent(title);
      bookings := bookings + [booking];
      issued := issued + {id};
      return Created(booking);
    }
  }
}
