/** The event record that the dispatcher reads from the database and hands to
    the message channel. */
module Structs {
  import opened Calendar

  /** Go's `int32`. */
  type Int32 = x: int | -0x8000_0000 <= x < 0x8000_0000

  datatype Event = Event(
    uuid: string,
    header: string,
    dateTime: Instant,
    description: string,
    owner: string,
    mailingDuration: Int32,  // minutes before `dateTime` at which to notify
    eventDurationStart: Instant,
    eventDurationStop: Instant)
}
