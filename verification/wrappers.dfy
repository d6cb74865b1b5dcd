/** Optional values, the error kinds the services raise, and the outcome of an
    operation that may change the store even when it fails. */
module Wrappers {

  /** A nullable value: `None` stands for C# `null`. */
  datatype Option<+T> = None | Some(value: T) {
    function GetOr(default: T): T {
      match this
      case Some(v) => v
      case None => default
    }
  }

  /** The exceptions the services throw, grouped by what the caller can do about them. */
  datatype Error =
    | Unauthenticated      // no caller identity, or a UserId claim that is missing or not a Guid
    | Unauthorized         // caller is not the owner/creator, wrong secret key, invalid token
    | NotFound             // a lookup by id, e-mail or username found nothing
    | AlreadyExists        // e-mail already whitelisted, user already registered
    | AlreadyVoted         // a VoterCheck exists for (voter, poll)
    | InvalidArgument      // a validation rule on the request failed
    | ConstraintViolation  // the database refused the write (a foreign key does not resolve)
    | Ambiguous            // SingleOrDefault found more than one match
    | AccountDisabled      // login to a soft-deleted voter or moderator account
    | UnknownRole          // login for a user whose role is none of admin/moderator/voter
    | InvalidPassword      // the password does not verify against the stored hash

  datatype Result<+T> = Ok(value: T) | Err(error: Error)
}
