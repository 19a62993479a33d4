/** Outcomes of a booking request: the error kinds the appointment handler
    reports to the user, and the Option/Result wrappers used to carry them. */
module Outcomes {

  /** The rejections of the booking rule (each renders the booking form
      again with status 400). */
  datatype BookingError =
    | PastDate       // the requested day is before today
    | TooLateToday   // the requested day is today and it is 19:00 or later
    | FullyBooked    // every open hour of the requested day is taken

  datatype Option<T> = None | Some(value: T)

  datatype Result<T> = Success(value: T) | Failure(error: BookingError)
}
