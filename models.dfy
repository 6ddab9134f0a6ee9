/** The entities the repository stores: rooms, users and bookings. */
module Models {
  /** A `Guid`. New ones come from `Guid.NewGuid`, which the model takes as an input. */
  type Guid = nat

  /** A C# `int`. */
  newtype int32 = x: int | -0x8000_0000 <= x < 0x8000_0000

  /** A conference room; `createdAtUtc` is the `DateTime.UtcNow` of its creation, in ticks. */
  datatype Room = Room(id: Guid, name: string, capacity: int32, createdAtUtc: int)

  /** A user known by login; the role is "Admin" or "User". */
  datatype AppUser = AppUser(login: string, role: string)

  /** A reservation of a room over [startUtc, endUtc), both in UTC ticks. */
  datatype Booking = Booking(
    id: Guid,
    roomId: Guid,
    title: string,
    startUtc: int,
    endUtc: int,
    createdByLogin: string,
    createdAtUtc: int)

  /** The exceptions the repository throws on bad arguments. */
  datatype ArgumentError =
    | ArgumentException(paramName: string, message: string)
    | ArgumentOutOfRange(paramName: string, message: string)
}
