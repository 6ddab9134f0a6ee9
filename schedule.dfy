/**
 * The check-then-commit logic of `TryCreateBooking` over the room and booking
 * lists, and the no-double-booking invariant it keeps.
 */
module Schedule {
  import opened Wrappers
  import opened Text
  import opened Time
  import opened Models

  /** The collision test `b.EndUtc > startUtc && b.StartUtc < endUtc`: half-open
      intervals, so a booking that ends when another starts does not overlap it. */
  predicate Overlaps(b: Booking, startUtc: int, endUtc: int) {
    b.endUtc > startUtc && b.startUtc < endUtc
  }

  /** Two bookings of the same room whose intervals overlap. */
  predicate Clash(a: Booking, b: Booking) {
    a.roomId == b.roomId && Overlaps(a, b.startUtc, b.endUtc)
  }

  /** The key invariant: no two distinct entries of the list clash. */
  predicate NoDoubleBooking(bs: seq<Booking>) {
    forall i, j :: 0 <= i < |bs| && 0 <= j < |bs| && i != j ==> !Clash(bs[i], bs[j])
  }

  /** `_rooms.Any(r => r.Id == roomId)`. */
  predicate RoomExists(rooms: seq<Room>, roomId: Guid) {
    exists r :: r in rooms && r.id == roomId
  }

  /** `_bookings.Any(b => b.RoomId == roomId && b.EndUtc > startUtc && b.StartUtc < endUtc)`. */
  predicate HasOverlap(bs: seq<Booking>, roomId: Guid, startUtc: int, endUtc: int) {
    exists b :: b in bs && b.roomId == roomId && Overlaps(b, startUtc, endUtc)
  }

  /** Appending a booking keeps a clash-free list clash-free exactly when the
      collision check finds no overlapping booking of the same room. */
  lemma AppendKeepsNoDoubleBooking(bs: seq<Booking>, b: Booking)
    requires NoDoubleBooking(bs)
    ensures NoDoubleBooking(bs + [b]) <==> !HasOverlap(bs, b.roomId, b.startUtc, b.endUtc)
  {
    var s := bs + [b];
    if !HasOverlap(bs, b.roomId, b.startUtc, b.endUtc) {
      forall i, j | 0 <= i < |s| && 0 <= j < |s| && i != j
        ensures !Clash(s[i], s[j])
      {
        if i == |bs| {
          assert s[j] in bs;
        } else if j == |bs| {
          assert s[i] in bs;
        } else {
          assert s[i] == bs[i] && s[j] == bs[j];
        }
      }
    } else {
      var c :| c in bs && c.roomId == b.roomId && Overlaps(c, b.startUtc, b.endUtc);
      var i :| 0 <= i < |bs| && bs[i] == c;
      assert s[i] == c && s[|bs|] == b;
      assert Clash(s[i], s[|bs|]);
    }
  }

  /** The errors of `TryCreateBooking`, in the order it checks for them. */
  datatype BookingError =
    | TitleRequired
    | StartNotBeforeEnd
    | TooShort
    | TooLong
    | RoomNotFound
    | SlotTaken

  /** The error strings `TryCreateBooking` returns: each is a non-empty
      sentence ending in a full stop. */
  function Message(e: BookingError): (r: string)
    ensures |r| > 1 && r[|r| - 1] == '.'
  {
    match e
    case TitleRequired => "Title is required."
    case StartNotBeforeEnd => "Start must be before end."
    case TooShort => "Minimum booking duration is 15 minutes."
    case TooLong => "Maximum booking duration is 3 hours."
    case RoomNotFound => "Room not found."
    case SlotTaken => "Time slot overlaps with an existing booking."
  }

  /** The six errors have six different strings, so a client can tell from the
      string alone which check failed. */
  lemma MessagesDistinct(e1: BookingError, e2: BookingError)
    ensures Message(e1) == Message(e2) <==> e1 == e2
  {
    if e1 != e2 {
      assert |Message(e1)| != |Message(e2)|;
    }
  }

  /** The arguments of one `TryCreateBooking` call that decide its outcome. */
  datatype Attempt = Attempt(
    roomId: Guid,
    startLocal: DateTime,
    endLocal: DateTime,
    title: string,
    tz: TimeZone)

  /** The interval `[startUtc, endUtc)` a successful attempt stores. */
  datatype Slot = Slot(startUtc: int, endUtc: int)

  /** The length of the attempt once both endpoints are wall-clock times; when
      neither endpoint is UTC it is the raw difference of the ticks. */
  function WallDuration(a: Attempt): (d: int)
    ensures a.startLocal.kind != Utc && a.endLocal.kind != Utc ==> d == a.endLocal.ticks - a.startLocal.ticks
  {
    NormalizeToLocalWall(a.endLocal, a.tz) - NormalizeToLocalWall(a.startLocal, a.tz)
  }

  /** Both normalised endpoints converted to UTC for storage. */
  function UtcSlot(a: Attempt): Slot {
    Slot(a.tz.toUtc(NormalizeToLocalWall(a.startLocal, a.tz)),
         a.tz.toUtc(NormalizeToLocalWall(a.endLocal, a.tz)))
  }

  /** The checks that come before the per-room lock is taken: title, order of
      the raw endpoints, and the wall-clock duration bounds. */
  predicate PassesRequestChecks(a: Attempt) {
    && !IsBlank(a.title)
    && a.startLocal.ticks < a.endLocal.ticks
    && MinDuration <= WallDuration(a) <= MaxDuration
  }

  /** What `TryCreateBooking` decides for an attempt against the current rooms
      and bookings, check by check in the source's order. */
  function Decide(rooms: seq<Room>, bookings: seq<Booking>, a: Attempt): (r: Result<Slot, BookingError>)
    ensures IsBlank(a.title) ==> r == Err(TitleRequired)
    ensures r.Ok? ==> && r.value == UtcSlot(a)
                      && PassesRequestChecks(a)
                      && RoomExists(rooms, a.roomId)
                      && !HasOverlap(bookings, a.roomId, r.value.startUtc, r.value.endUtc)
    ensures r.Err? && r.error in {RoomNotFound, SlotTaken} ==> PassesRequestChecks(a)
  {
    if IsBlank(a.title) then Err(TitleRequired)
    else if a.startLocal.ticks >= a.endLocal.ticks then Err(StartNotBeforeEnd)
    else if WallDuration(a) < MinDuration then Err(TooShort)
    else if WallDuration(a) > MaxDuration then Err(TooLong)
    else
      var slot := UtcSlot(a);
      if !RoomExists(rooms, a.roomId) then Err(RoomNotFound)
      else if HasOverlap(bookings, a.roomId, slot.startUtc, slot.endUtc) then Err(SlotTaken)
      else Ok(slot)
  }

  /** Reference definition: whether one check, on its own, rejects the attempt. */
  predicate Rejects(e: BookingError, rooms: seq<Room>, bookings: seq<Booking>, a: Attempt) {
    match e
    case TitleRequired => IsBlank(a.title)
    case StartNotBeforeEnd => a.startLocal.ticks >= a.endLocal.ticks
    case TooShort => WallDuration(a) < MinDuration
    case TooLong => WallDuration(a) > MaxDuration
    case RoomNotFound => !RoomExists(rooms, a.roomId)
    case SlotTaken => HasOverlap(bookings, a.roomId, UtcSlot(a).startUtc, UtcSlot(a).endUtc)
  }

  /** The position of each check in the order they are made. */
  function Priority(e: BookingError): nat {
    match e
    case TitleRequired => 0
    case StartNotBeforeEnd => 1
    case TooShort => 2
    case TooLong => 3
    case RoomNotFound => 4
    case SlotTaken => 5
  }

  /** The attempt succeeds exactly when no check rejects it, and it then stores
      the converted UTC endpoints. */
  lemma DecideOkIffNoCheckRejects(rooms: seq<Room>, bookings: seq<Booking>, a: Attempt)
    ensures Decide(rooms, bookings, a).Ok? <==> forall e :: !Rejects(e, rooms, bookings, a)
    ensures Decide(rooms, bookings, a).Ok? ==> Decide(rooms, bookings, a).value == UtcSlot(a)
  {
    if Decide(rooms, bookings, a).Ok? {
      forall e ensures !Rejects(e, rooms, bookings, a) {
        match e
        case TitleRequired =>
        case StartNotBeforeEnd =>
        case TooShort =>
        case TooLong =>
        case RoomNotFound =>
        case SlotTaken =>
      }
    } else {
      var e := Decide(rooms, bookings, a).error;
      assert Rejects(e, rooms, bookings, a);
    }
  }

  /** The error returned is the first check, in priority order, that rejects
      the attempt: it rejects, and every earlier check passes. */
  lemma DecideReportsFirstRejectingCheck(rooms: seq<Room>, bookings: seq<Booking>, a: Attempt, e: BookingError)
    ensures Decide(rooms, bookings, a) == Err(e) <==>
              && Rejects(e, rooms, bookings, a)
              && forall e' :: Priority(e') < Priority(e) ==> !Rejects(e', rooms, bookings, a)
  {
    var d := Decide(rooms, bookings, a);
    if d == Err(e) {
      forall e' | Priority(e') < Priority(e) ensures !Rejects(e', rooms, bookings, a) {
        match e'
        case TitleRequired =>
        case StartNotBeforeEnd =>
        case TooShort =>
        case TooLong =>
        case RoomNotFound =>
        case SlotTaken =>
      }
    }
    if Rejects(e, rooms, bookings, a) && forall e' :: Priority(e') < Priority(e) ==> !Rejects(e', rooms, bookings, a) {
      assert Priority(TitleRequired) == 0 && Priority(StartNotBeforeEnd) == 1;
      assert Priority(TooShort) == 2 && Priority(TooLong) == 3 && Priority(RoomNotFound) == 4;
    }
  }

  /** What a successful attempt guarantees: a non-blank title, raw start before
      raw end, a wall-clock duration in [15 min, 3 h], an existing room, and no
      booking of that room overlapping the stored interval. */
  lemma DecideOkGuarantees(rooms: seq<Room>, bookings: seq<Booking>, a: Attempt)
    requires Decide(rooms, bookings, a).Ok?
    ensures PassesRequestChecks(a) && RoomExists(rooms, a.roomId)
    ensures forall b :: b in bookings && b.roomId == a.roomId ==>
              !Overlaps(b, Decide(rooms, bookings, a).value.startUtc, Decide(rooms, bookings, a).value.endUtc)
  {
  }

  /** Bookings are half-open intervals: with identity time-zone conversions
      and a booking of room 1 for [9:00, 9:30), a booking that starts at 9:30
      is accepted and one for [9:15, 9:45) is refused as an overlap. */
  lemma AbuttingAllowedOverlapRefused()
    ensures var tz := TimeZone(t => t, t => t);
            var rooms := [Room(1, "Orion", 8, 0)];
            var h9 := 9 * TicksPerHour;
            var bookings := [Booking(2, 1, "Standup", h9, h9 + 30 * TicksPerMinute, "alice", 0)];
            && Decide(rooms, bookings, Attempt(1, DateTime(h9 + 30 * TicksPerMinute, Unspecified),
                                               DateTime(h9 + 60 * TicksPerMinute, Unspecified), "Review", tz))
               == Ok(Slot(h9 + 30 * TicksPerMinute, h9 + 60 * TicksPerMinute))
            && Decide(rooms, bookings, Attempt(1, DateTime(h9 + 15 * TicksPerMinute, Unspecified),
                                               DateTime(h9 + 45 * TicksPerMinute, Unspecified), "Review", tz))
               == Err(SlotTaken)
  {
    var tz := TimeZone(t => t, t => t);
    var rooms := [Room(1, "Orion", 8, 0)];
    var h9 := 9 * TicksPerHour;
    var b := Booking(2, 1, "Standup", h9, h9 + 30 * TicksPerMinute, "alice", 0);
    var title := "Review";
    assert !IsWhiteSpace(title[0]);
    assert rooms[0].id == 1;
    var later := Attempt(1, DateTime(h9 + 30 * TicksPerMinute, Unspecified), DateTime(h9 + 60 * TicksPerMinute, Unspecified), title, tz);
    assert UtcSlot(later) == Slot(h9 + 30 * TicksPerMinute, h9 + 60 * TicksPerMinute);
    assert !HasOverlap([b], 1, h9 + 30 * TicksPerMinute, h9 + 60 * TicksPerMinute);
    var across := Attempt(1, DateTime(h9 + 15 * TicksPerMinute, Unspecified), DateTime(h9 + 45 * TicksPerMinute, Unspecified), title, tz);
    assert UtcSlot(across) == Slot(h9 + 15 * TicksPerMinute, h9 + 45 * TicksPerMinute);
    assert [b][0] == b;
  }

  /** The booking a successful attempt appends: the trimmed title, the UTC
      interval, the creator's login, a fresh id and the creation time. */
  function NewBooking(a: Attempt, slot: Slot, createdByLogin: string, id: Guid, now: int): Booking {
    Booking(id, a.roomId, Trim(a.title), slot.startUtc, slot.endUtc, createdByLogin, now)
  }

  /** The booking list after one `TryCreateBooking` call. */
  function Commit(rooms: seq<Room>, bookings: seq<Booking>, a: Attempt, createdByLogin: string, id: Guid, now: int): seq<Booking> {
    match Decide(rooms, bookings, a)
    case Ok(slot) => bookings + [NewBooking(a, slot, createdByLogin, id, now)]
    case Err(_) => bookings
  }

  /** One call keeps the list free of double bookings. */
  lemma CommitKeepsNoDoubleBooking(rooms: seq<Room>, bookings: seq<Booking>, a: Attempt, createdByLogin: string, id: Guid, now: int)
    requires NoDoubleBooking(bookings)
    ensures NoDoubleBooking(Commit(rooms, bookings, a, createdByLogin, id, now))
  {
    match Decide(rooms, bookings, a)
    case Ok(slot) =>
      AppendKeepsNoDoubleBooking(bookings, NewBooking(a, slot, createdByLogin, id, now));
    case Err(_) =>
  }

  /** One `TryCreateBooking` call as issued: the rooms that exist at that
      moment, the arguments, the caller's login, a fresh id and the clock. */
  datatype Request = Request(rooms: seq<Room>, attempt: Attempt, createdByLogin: string, id: Guid, now: int)

  /** The booking list after a sequence of calls, one after the other. */
  function Replay(bookings: seq<Booking>, reqs: seq<Request>): seq<Booking>
    decreases |reqs|
  {
    if reqs == [] then bookings
    else
      var q := reqs[0];
      Replay(Commit(q.rooms, bookings, q.attempt, q.createdByLogin, q.id, q.now), reqs[1..])
  }

  /** The sequential invariant: bookings that were all added by `TryCreateBooking`,
      whatever the rooms were at each call, never double-book a room. */
  lemma {:induction false} ReplayKeepsNoDoubleBooking(bookings: seq<Booking>, reqs: seq<Request>)
    requires NoDoubleBooking(bookings)
    ensures NoDoubleBooking(Replay(bookings, reqs))
    decreases |reqs|
  {
    if reqs != [] {
      var q := reqs[0];
      CommitKeepsNoDoubleBooking(q.rooms, bookings, q.attempt, q.createdByLogin, q.id, q.now);
      ReplayKeepsNoDoubleBooking(Commit(q.rooms, bookings, q.attempt, q.createdByLogin, q.id, q.now), reqs[1..]);
    }
  }

  /** Every failed call leaves the bookings as they were, and a successful one
      appends exactly one booking. */
  lemma CommitAppendsAtMostOne(rooms: seq<Room>, bookings: seq<Booking>, a: Attempt, createdByLogin: string, id: Guid, now: int)
    ensures var r := Commit(rooms, bookings, a, createdByLogin, id, now);
            && |r| == |bookings| + (if Decide(rooms, bookings, a).Ok? then 1 else 0)
            && r[..|bookings|] == bookings
  {
  }
}
