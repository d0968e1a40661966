/** Optional values, results and the error taxonomy the services raise. */
module Outcomes {
  import opened Enums

  datatype Option<+T> = None | Some(value: T)

  /** The kind of row a lookup failed to find. */
  datatype Entity = EventRow | RegistrationRow | UserRow | RequestRow

  /** Why an operation was refused; one constructor per distinct rejection in the services. */
  datatype Reason =
    | InvalidTransition(from: EventStatus, action: Action)
    | RegistrationNotStarted
    | RegistrationClosed
    | AlreadyRegistered
    | CannotCancelAfterCheckin
    | NotOrganizer
    | CardRequiresApproval
    | NotApproved(current: RegistrationStatus)
    | AlreadyCheckedIn
    | SelfRequest
    | RequestPending
    | AlreadyFriends
    | NoSharedEvent
    | NotRecipient
    | AlreadyAnswered
    | NotFriends
    | EventNotFinished
    | NotAttended
    | AlreadyReviewed

  /** The HTTP exception families the services throw. */
  datatype Error =
    | NotFound(entity: Entity)
    | Forbidden(reason: Reason)
    | BadRequest(reason: Reason)
    | Conflict(reason: Reason)

  datatype Result<+T> = Ok(value: T) | Err(error: Error)

  /** The outcome of an operation that returns nothing but may be refused. */
  datatype Outcome = Pass | Fail(error: Error)
}
