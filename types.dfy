/** The records shared by the scheduler's components (src/types.ts), plus the
    `T | null` results, written as an Option. */
module Types {

  datatype Option<T> = None | Some(value: T)

  /** A slot of availability as the forms hold it: two "HH:MM" strings. */
  datatype TimeSlot = TimeSlot(start: string, end: string)

  /** One participant and the slots they entered, in entry order. */
  datatype User = User(name: string, timeSlots: seq<TimeSlot>)
}
