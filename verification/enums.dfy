/** The closed vocabularies of the system: the database enums and the five
    operations every event state offers. */
module Enums {

  /** Lifecycle status of an event (column `status`, default draft). */
  datatype EventStatus = Draft | Published | Finished | Canceled {
    /** The string the database and `getStatus()` use for this status. */
    function Name(): string {
      match this
      case Draft => "draft"
      case Published => "published"
      case Finished => "finished"
      case Canceled => "canceled"
    }
  }

  /** The operations of the event state interface; each state either moves the
      event or rejects the operation. */
  datatype Action = Publish | Cancel | Finish | Update | RevertToDraft

  /** Status of a registration (column `status`, default pending). */
  datatype RegistrationStatus =
    | Pending
    | Approved
    | Rejected
    | WaitingPayment
    | Confirmed
    | RegCanceled
    | CheckedIn

  /** How a check-in was recorded. */
  datatype CheckinMethod = Manual | Qr

  /** Status of a friendship request (default pending). */
  datatype FriendshipStatus = FriendPending | Accepted | FriendRejected

  /** Whether an event charges for entry (default free). */
  datatype EventType = Free | Paid
}
