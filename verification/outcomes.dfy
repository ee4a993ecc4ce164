/** Result types shared by the console and GUI variants of the calendar.

    The source signals a rejected input by printing a message (console) or a
    widget warning (GUI) and returning without touching its maps; here that
    becomes an `Err` carrying the reason.
 */
module Outcomes {

  datatype Option<+T> = None | Some(value: T)

  /** Why a write was refused at the boundary. */
  datatype Rejection =
    | DateInPast     // the chosen date lies before today
    | EmptyName      // the holiday name is blank
    | EmptySchedule  // no schedule line survived normalisation

  datatype Result<+T> = Ok(value: T) | Err(reason: Rejection)
}
