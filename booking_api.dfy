/**
 * `BookingApiController.Create` and its request type: the data annotations on
 * `Title`, the request's own `Validate`, and the mapping of the repository's
 * answer to an HTTP result.
 */
module BookingApi {
  import Wrappers
  import opened Text
  import opened Time
  import opened Models
  import opened Schedule
  import Repository

  /** The JSON body of `POST api/booking/create`. */
  datatype CreateRequest = CreateRequest(roomId: Guid, startLocal: DateTime, endLocal: DateTime, title: string)

  /** A `ValidationResult`: its message and the members it names. */
  datatype ValidationResult = ValidationResult(errorMessage: string, memberNames: seq<string>)

  /** The members every result of `Validate` names. */
  const Endpoints: seq<string> := ["StartLocal", "EndLocal"]

  /** The default messages of `[Required]` and `[StringLength(200, MinimumLength = 1)]` on `Title`. */
  const TitleRequiredMessage: string := "The Title field is required."
  const TitleLengthMessage: string := "The field Title must be a string with a minimum length of 1 and a maximum length of 200."
  const TitleMaxLength: int := 200

  /** `EndLocal - StartLocal`: a `DateTime` difference compares ticks and ignores the kind. */
  function RawDuration(req: CreateRequest): int {
    req.endLocal.ticks - req.startLocal.ticks
  }

  /** The errors of the two annotations on `Title`, `[Required]` first: the
      title must hold a non-white-space character and be at most 200 long. */
  function TitleErrors(title: string): (r: seq<string>)
    ensures r == [] <==> !IsBlank(title) && |title| <= TitleMaxLength
    ensures IsBlank(title) ==> r[0] == TitleRequiredMessage
    ensures !IsBlank(title) && r != [] ==> r == [TitleLengthMessage]
  {
    (if IsBlank(title) then [TitleRequiredMessage] else [])
    + (if 1 <= |title| <= TitleMaxLength then [] else [TitleLengthMessage])
  }

  /** `CreateRequest.Validate`: "start before end" alone when the raw endpoints
      are out of order, otherwise one result per violated duration bound. At
      most one result comes out, and none exactly when start precedes end and
      the duration lies in [15 min, 3 h], both bounds included. */
  function Validate(req: CreateRequest): (r: seq<ValidationResult>)
    ensures |r| <= 1
    ensures r == [] <==> req.startLocal.ticks < req.endLocal.ticks && MinDuration <= RawDuration(req) <= MaxDuration
    ensures req.startLocal.ticks >= req.endLocal.ticks ==> r == [ValidationResult(Message(StartNotBeforeEnd), Endpoints)]
    ensures req.startLocal.ticks < req.endLocal.ticks && RawDuration(req) < MinDuration ==>
              r == [ValidationResult(Message(TooShort), Endpoints)]
    ensures RawDuration(req) > MaxDuration ==> r == [ValidationResult(Message(TooLong), Endpoints)]
  {
    if req.startLocal.ticks >= req.endLocal.ticks then
      [ValidationResult(Message(StartNotBeforeEnd), Endpoints)]
    else
      var duration := RawDuration(req);
      (if duration < MinDuration then [ValidationResult(Message(TooShort), Endpoints)] else [])
      + (if duration > MaxDuration then [ValidationResult(Message(TooLong), Endpoints)] else [])
  }

  /** The messages of a list of validation results, in order. */
  function ErrorMessages(vs: seq<ValidationResult>): (r: seq<string>)
    ensures |r| == |vs| && forall i :: 0 <= i < |vs| ==> r[i] == vs[i].errorMessage
  {
    seq(|vs|, i requires 0 <= i < |vs| => vs[i].errorMessage)
  }

  /** The error messages `Create` can report for a bound request, in order:
      the `Title` annotation errors, and, only when every property is valid,
      the message of each `Validate` result once. */
  function ModelErrors(req: CreateRequest): (r: seq<string>)
    ensures r == [] <==> && !IsBlank(req.title) && |req.title| <= TitleMaxLength
                         && req.startLocal.ticks < req.endLocal.ticks
                         && MinDuration <= RawDuration(req) <= MaxDuration
  {
    var titleErrors := TitleErrors(req.title);
    if titleErrors != [] then titleErrors else ErrorMessages(Validate(req))
  }

  /** The `IActionResult` of `Create`: `BadRequest(new { error })` or `Ok(new { id })`. */
  datatype Response = BadRequest(error: string) | Ok(id: Guid)

  /** The repository call `Create` makes for a request in a time zone. */
  function AttemptOf(req: CreateRequest, tz: TimeZone): Attempt {
    Attempt(req.roomId, req.startLocal, req.endLocal, req.title, tz)
  }

  /** `Create`: the first model error when there is one, with the
      repository untouched; otherwise the repository's error string unchanged,
      or the id of the booking it created. The session login, the local time
      zone, the new id and the clock are parameters. */
  method Create(repo: Repository.InMemoryRepository, req: CreateRequest, login: string, tz: TimeZone, id: Guid, now: int)
    returns (resp: Response)
    requires repo.Valid() && id !in repo.issued
    modifies repo
    ensures repo.Valid()
    ensures ModelErrors(req) != [] ==> resp == BadRequest(ModelErrors(req)[0]) && unchanged(repo)
    ensures ModelErrors(req) == [] ==>
              match Decide(old(repo.rooms), old(repo.bookings), AttemptOf(req, tz))
              case Ok(slot) =>
                && resp == Ok(id)
                && repo.bookings == old(repo.bookings) + [NewBooking(AttemptOf(req, tz), slot, login, id, now)]
              case Err(e) =>
                && resp == BadRequest(Message(e))
                && repo.bookings == old(repo.bookings)
    ensures ModelErrors(req) == [] ==>
              && repo.roomLocks == (if PassesRequestChecks(AttemptOf(req, tz)) then old(repo.roomLocks) + {req.roomId}
                                    else old(repo.roomLocks))
              && repo.issued == (if Decide(old(repo.rooms), old(repo.bookings), AttemptOf(req, tz)).Ok?
                                 then old(repo.issued) + {id} else old(repo.issued))
    ensures repo.rooms == old(repo.rooms) && repo.users == old(repo.users)
  {
    var errors := ModelErrors(req);
    if errors != [] {
      return BadRequest(errors[0]);
    }
    var result := repo.TryCreateBooking(req.roomId, req.startLocal, req.endLocal, req.title, login, tz, id, now);
    match result
    case Rejected(e) =>
      return BadRequest(Message(e));
    case Created(booking) =>
      return Ok(booking.id);
  }

  /** A request that passes model validation and whose endpoints are both
      local or unspecified passes every request check of the repository as
      well: the repository can then only answer "Room not found." or the
      overlap error. */
  lemma ValidModelOnlyFailsOnRoomOrSlot(rooms: seq<Room>, bookings: seq<Booking>, req: CreateRequest, tz: TimeZone)
    requires ModelErrors(req) == []
    requires req.startLocal.kind != Utc && req.endLocal.kind != Utc
    ensures PassesRequestChecks(AttemptOf(req, tz))
    ensures Decide(rooms, bookings, AttemptOf(req, tz)).Err? ==>
              Decide(rooms, bookings, AttemptOf(req, tz)).error in {RoomNotFound, SlotTaken}
  {
    var a := AttemptOf(req, tz);
    assert WallDuration(a) == RawDuration(req);
  }

  /** With a UTC start and a local end, `Validate` measures raw ticks while the
      repository first moves the start to wall-clock time, so the two layers
      can disagree: here two hours ahead of UTC, a one-hour request passes
      model validation and the repository rejects it as too short. */
  lemma MixedKindsPassValidationButNotRepository()
    ensures var tz := TimeZone(t => t + 2 * TicksPerHour, t => t - 2 * TicksPerHour);
            var req := CreateRequest(0, DateTime(0, Utc), DateTime(TicksPerHour, Local), "Standup");
            && ModelErrors(req) == []
            && Decide([], [], AttemptOf(req, tz)) == Wrappers.Err(TooShort)
  {
    var tz := TimeZone(t => t + 2 * TicksPerHour, t => t - 2 * TicksPerHour);
    var req := CreateRequest(0, DateTime(0, Utc), DateTime(TicksPerHour, Local), "Standup");
    assert !IsWhiteSpace(req.title[0]);
    assert WallDuration(AttemptOf(req, tz)) == -TicksPerHour;
  }
}
