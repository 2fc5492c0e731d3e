/**
 * The JSON replies the route handlers build with `Response.json({ success, message, ... }, { status })`:
 * a success carries its status, message and payload; a failure carries the kind of error, its
 * status and message.
 */
module Responses {
  import opened UserModel

  /** The kinds of failure the handlers report. */
  datatype Failure =
    | UsernameTaken      // a verified user holds the username
    | EmailTaken         // a verified user holds the email
    | StoreRejected      // save() threw: validation or a duplicate key; reported by the catch block
    | MailFailed         // the verification mail could not be sent
    | UserNotFound
    | CodeExpired
    | CodeIncorrect
    | NotAccepting       // the recipient has turned messages off
    | NotAuthenticated   // no session, or no user in it
    | UpdateFailed       // the session's user id matches no document
    | InvalidQuery       // the username failed its format rule

  /** The extra fields a success reply carries. */
  datatype Payload =
    | NoPayload
    | AcceptFlag(isAcceptingMessages: bool)
    | UpdatedUser(user: User)

  /** `success: true` is `Ok`, `success: false` is `Err`. */
  datatype Reply =
    | Ok(status: nat, message: string, payload: Payload)
    | Err(error: Failure, status: nat, message: string)
}
