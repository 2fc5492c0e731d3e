# Anonymous messages: accounts and messaging, modelled in Dafny

This project models the server side of an anonymous-messages web application. Users register with a username, an email and a password. They confirm the account with a six-digit code sent by mail. They then receive anonymous messages, which they can switch off. The model covers the users collection and the five routes (six handlers) that read and change it:

- POST /api/signup (registration);
- POST /api/verify-code (account verification);
- POST /api/send-messages (delivery of an anonymous message);
- POST and GET /api/accept-messages (setting and reading the accept flag);
- GET /api/is-username-unique (availability check).

The model has these layers, one module each:

- **`UserModel`**: the `User` and `Message` documents of the Mongoose schema.
  - The `trim` setter on usernames, as `String.prototype.trim`.
  - The email pattern `/.+\@.+\..+/` as an executable matcher. It is proved equal to a declarative reading of the regular expression: unanchored, with `.` matching any character except a line terminator.
  - The validators that run before a document is stored.
  - The defaults applied when a document is built.
- **`Store`**: the collection as a sequence of documents plus the next identifier.
  - `findOne`/`findById` as a search for the first matching document.
  - `save()` as a write that runs validation and the unique indexes on `_id`, `username` and `email`. Failure is `None`: the thrown error that the handlers' catch blocks answer with 500.
  - `Consistent`: every stored document is valid and no two share an id, a username or an email.
  - `Evolves`: how a state may change from one request to the next. Documents are never removed, keep their identifiers and usernames, and a verified account stays verified.
- **`Responses`**: the JSON replies, `Ok(status, message, payload)` or `Err(kind, status, message)`.
- **One module per route**: the handler as a function from the collection and the request to the reply and the new collection, with lemmas for each branch.
- **`Lifecycle`**: properties spanning several routes. The life cycle is unregistered, then pending verification, then verified.
- **`Api`**: the class `Server`, which holds the collection in mutable fields.
  - Its methods `Signup`, `VerifyCode` and `SendMessage` work as those handlers do: they copy the found document out, assign its fields one by one and write it back through `save()`. When no account has the email, `Signup` instead builds a new document and inserts it.
  - `SetAcceptMessages` works as `findByIdAndUpdate` does: it updates the stored document in place, with no validation step.
  - Each method is proved to produce exactly the reply and the state of its route's function, and to keep `Consistent`.
  - The two GET handlers only read, so they stay functions of `Server.State()`.

Inputs from outside the code are parameters:

- **Password hash**: `password` is `hashedPassword`, the value `bcrypt.hash` returned for this request. The hash is salted, so it is not a function of the password.
- **Code**: the random draw is `otp`, a number in [100000, 999999], stored as its decimal notation.
- **Clock**: the time is `now`, in milliseconds.
- **Mail provider**: its answer is `mailDelivered`.
- **Session**: the signed-in user is `Option<UserId>`.
- **Username format rule**: a parameter `rule`.

## Model

| member | source | states |
|---|---|---|
| UserModel.TrimCharacterization | models/user.ts:37 | the trim setter removes exactly the surrounding whitespace: for any core whose ends are not whitespace, Trim of whitespace + core + whitespace is the core |
| UserModel.TrimSplit | models/user.ts:37 | every string is its trimmed value with whitespace on both sides, and the trimmed value has no whitespace at either end |
| UserModel.TrimIdempotent | models/user.ts:37 | trimming a stored username again changes nothing |
| UserModel.IsEmailCorrect | models/user.ts:44 | the matcher accepts a string exactly when the regular expression finds a match in it: a non-empty run, `@`, a non-empty run, `.`, a non-empty run, none of them containing a line terminator |
| UserModel.EmailPatternUnanchored | models/user.ts:44 | the pattern is unanchored: any text before or after an accepted address is still accepted |
| UserModel.IsEmailAcceptsAddress | models/user.ts:44 | "neo@x.com" is accepted |
| UserModel.IsEmailRejectsMissingDot | models/user.ts:44 | "neo@x" is rejected: there is no `.` after the `@` |
| UserModel.MakeUserDefaults | models/user.ts:33-65 | a new document whose flags are left unset is unverified and accepting messages, and its username is stored trimmed |
| UserModel.MessageDefaultIsFrozen | models/user.ts:15-19 | as written, two messages built at different instants without a timestamp get the same default, so one of them is not stamped with its creation time |
| UserModel.MakeMessageStamps | models/user.ts:10-20 | with the intended default, a message keeps its content and is stamped with its creation time unless a timestamp is given |
| Store.FindFirst | app/api/verify-code/route.ts:15 | the result is the position of the first matching document, or None when no document matches |
| Store.FindByUsername | app/api/send-messages/route.ts:14-16 | finds a document holding the username, and finds none exactly when no document holds it |
| Store.FindVerifiedByUsername | app/api/signup/route.ts:24-27 | finds a verified document holding the username, and finds none exactly when no verified document holds it |
| Store.FindByEmail | app/api/signup/route.ts:36 | finds a document holding the email, and finds none exactly when no document holds it |
| Store.FindById | app/api/accept-messages/route.ts:81 | finds the document with the identifier, and finds none exactly when no document has it |
| Store.FindByUsernameUnique | models/user.ts:34-39 | in a consistent collection, a username lookup returns the one document holding that username |
| Store.FindByEmailUnique | models/user.ts:40-45 | in a consistent collection, an email lookup returns the one document holding that email |
| Store.FindByIdUnique | app/api/accept-messages/route.ts:81 | in a consistent collection, an identifier lookup returns the one document with that identifier |
| Store.UnverifiedHolderExcludesVerified | models/user.ts:38 | because usernames are unique, a name held by an unverified document is held by no verified one |
| Store.SaveNew | app/api/signup/route.ts:69 | inserting succeeds exactly when the document passes validation and no document holds its id, username or email; on success the document is appended |
| Store.SaveExisting | app/api/signup/route.ts:51 | a successful save writes the edited copy over the stored document with the same id, and only a valid copy is written |
| Store.SaveNewKeepsConsistent | models/user.ts:33-67 | an accepted insert keeps the collection consistent, removes nothing and changes no id, username or verification |
| Store.SaveExistingKeepsConsistent | models/user.ts:33-67 | an accepted save keeps the collection consistent |
| Store.SaveExistingAt | app/api/verify-code/route.ts:31 | a successful save of the document at position i writes exactly position i, keeps the collection consistent, and renames and un-verifies nobody unless the copy itself does |
| Store.EvolvesTransitive | models/user.ts:34-39 | a sequence of requests, each removing no account and renaming or un-verifying none, together removes, renames and un-verifies none |
| Store.SaveExistingEditSucceeds | app/api/send-messages/route.ts:42-44 | saving an edited copy succeeds whenever the copy keeps its id, username and email and still passes validation |
| SignupRoute.OtpCodeShape | app/api/signup/route.ts:37 | every code drawn from [100000, 999999] is six decimal digits with no leading zero, and reading it back gives the drawn number |
| SignupRoute.DecimalRoundTrip | app/api/signup/route.ts:37 | the decimal notation of a number consists of digits, and reading it back gives the number |
| SignupRoute.DecimalInjective | app/api/signup/route.ts:37 | different numbers have different notations, so two different draws give two different codes |
| SignupRoute.MailAsWrittenIsMisaddressed | app/api/signup/route.ts:73-77 | as written, the mail is addressed to the username and greets the email address, so it never reaches the email unless the two are equal |
| SignupRoute.MailAsWrittenExample | app/api/signup/route.ts:73-77 | registering "neo" with "neo@x.com" sends the code to "neo" |
| SignupRoute.SignupMail | helpers/send-verification-email.ts:6-17 | with the arguments in the helper's order, the mail goes to the registered email, greets the username and carries the code |
| SignupRoute.PostRejectsVerifiedUsername | app/api/signup/route.ts:24-34 | a username held by a verified user is refused with 400 "Username already exists"; nothing is written or mailed |
| SignupRoute.PostRejectsVerifiedEmail | app/api/signup/route.ts:36-44 | an email held by a verified user is refused with 400 "User already exists with this email"; nothing is written or mailed |
| SignupRoute.PostRefreshesPending | app/api/signup/route.ts:45-52 | the unverified document holding the email gets the new hash, the new code and an expiry of now + 3600000, and nothing else changes: same position, username, flags and messages, no document added; the code is mailed and the mail outcome decides the reply |
| SignupRoute.PostCreatesAccount | app/api/signup/route.ts:53-70 | with the email and the username free, exactly one document is appended: the next id, the trimmed username, unverified, accepting messages, no messages, and a code expiring one hour from now |
| SignupRoute.PostPendingUsernameClash | app/api/signup/route.ts:53-98 | a new account whose username an unverified user already holds breaks the unique index; the catch answers 500 "Error registering user" and nothing is written or mailed |
| SignupRoute.PostRejectsInvalidAccount | app/api/signup/route.ts:53-98 | a new account that fails validation (a username that trims to nothing, an email the pattern rejects, an empty hash) is never stored, and the reply is 500 |
| SignupRoute.PostOutcomes | app/api/signup/route.ts:22-98 | a refusal writes and mails nothing. Otherwise the document holding the email is unverified, holds the mailed code and expires one hour from now; the mail outcome alone decides between 201 and 500, and a stored account stays stored when mailing fails |
| SignupRoute.PostKeepsConsistent | app/api/signup/route.ts:22-98 | registration keeps the collection consistent, removes no account, and renames or un-verifies none |
| VerifyCodeRoute.PostUnknownUser | app/api/verify-code/route.ts:15-24 | an unknown username is answered with 400 "User not found" and changes nothing |
| VerifyCodeRoute.PostSucceedsIff | app/api/verify-code/route.ts:26-39 | verification succeeds exactly when the stored code equals the given one and the expiry lies strictly after now; then the only change is that the account is verified, and the reply is 200 |
| VerifyCodeRoute.PostExpiredFirst | app/api/verify-code/route.ts:41-47 | an expired code is reported as expired whether or not it matches, and changes nothing |
| VerifyCodeRoute.PostIncorrectCode | app/api/verify-code/route.ts:48-54 | a code that has not expired but does not match is reported as incorrect, and changes nothing |
| VerifyCodeRoute.PostFailureChangesNothing | app/api/verify-code/route.ts:15-55 | every failing request leaves the collection as it was |
| VerifyCodeRoute.PostIdempotent | app/api/verify-code/route.ts:29-31 | success keeps the code and the expiry, so repeating a successful verification succeeds again and changes nothing more |
| VerifyCodeRoute.PostKeepsConsistent | app/api/verify-code/route.ts:9-64 | verification keeps the collection consistent, renames no account, and no path sets an account back to unverified |
| SendMessagesRoute.PostUnknownRecipient | app/api/send-messages/route.ts:14-25 | an unknown recipient is answered with 404 and changes nothing |
| SendMessagesRoute.PostRefusedWhenNotAccepting | app/api/send-messages/route.ts:28-35 | a recipient who does not accept messages gets none: 403, nothing changes |
| SendMessagesRoute.PostAppends | app/api/send-messages/route.ts:37-51 | a recipient who accepts messages, verified or not, gets exactly one more message, last, with the given content and the current time; no other field and no other account changes; the reply is 201 "Message sent successfully" |
| SendMessagesRoute.PostRejectsEmptyContent | app/api/send-messages/route.ts:37-60 | a message without content fails validation: the reply is an error and nothing is stored |
| SendMessagesRoute.PostKeepsConsistent | app/api/send-messages/route.ts:11-60 | sending keeps the collection consistent, removes no account, and renames or un-verifies none |
| AcceptMessagesRoute.Get | app/api/accept-messages/route.ts:66-98 | without a session the reply is 401 "Not Authenticated."; with one, the reply succeeds exactly when an account has the session's id, and then carries that account's stored flag; otherwise it is 401 "User not found" |
| AcceptMessagesRoute.PostUnauthenticated | app/api/accept-messages/route.ts:16-23 | without a session the reply is 401 and nothing changes |
| AcceptMessagesRoute.PostUnknownId | app/api/accept-messages/route.ts:36-43 | a session id that matches no account gets 401 "Failed to update user" and nothing changes |
| AcceptMessagesRoute.PostSetsFlag | app/api/accept-messages/route.ts:29-51 | the session user's flag becomes the given value, nothing else in the collection changes, and the reply carries the updated account |
| AcceptMessagesRoute.PostIdempotent | app/api/accept-messages/route.ts:29-34 | setting the same value twice gives the same reply and state as setting it once |
| AcceptMessagesRoute.GetAfterPost | app/api/accept-messages/route.ts:81-98 | after a successful POST, GET reports the value just set |
| AcceptMessagesRoute.PostKeepsConsistent | app/api/accept-messages/route.ts:29-34 | the update keeps the collection consistent and changes no id, username or verification |
| IsUsernameUniqueRoute.Get | app/api/is-username-unique/route.ts:34-67 | input failing the format rule gets 400, with the rule's messages joined by ", " as the message, or "Invalid query parameters" when the rule gives none. A valid name is reported available (201 "Username is unique") exactly when no verified user holds its trimmed form, and otherwise taken (500 "Username is already taken") |
| IsUsernameUniqueRoute.JoinLength | app/api/is-username-unique/route.ts:43 | the joined message's length is the error messages' total length plus one separator between each two neighbours |
| IsUsernameUniqueRoute.JoinSnoc | app/api/is-username-unique/route.ts:43 | joining one more error message appends the separator and that message, as the left-to-right join does, so every message appears in order between separators |
| IsUsernameUniqueRoute.JoinStartsWithFirst | app/api/is-username-unique/route.ts:43 | the joined error message starts with the first error message, followed by the separator when more follow |
| IsUsernameUniqueRoute.GetHeldOnlyByUnverified | app/api/is-username-unique/route.ts:51-67 | a name held only by an unverified account is reported available with 201 |
| Lifecycle.VerifiedUsernameNeverReRegistered | app/api/signup/route.ts:24-34 | once an account is verified, registering its username again is refused with 400, whatever the email, in every later state the collection evolves into (every route keeps usernames and verification, by its PostKeepsConsistent) |
| Lifecycle.VerifiedUsernameRefusedAfterVerify | app/api/signup/route.ts:24-34 | right after the verifying request, registering the verified username again is refused with 400 |
| Lifecycle.StaleCodeRejected | app/api/signup/route.ts:45-52 | re-registering a pending email replaces its code: the code mailed the first time is then refused as incorrect before the new expiry |
| Lifecycle.NoMessagesAfterTurningOff | app/api/send-messages/route.ts:28-35 | after the owner turns messages off, a message to them is refused with 403 and not stored |
| Lifecycle.UniqueCheckAgreesWithSignup | app/api/is-username-unique/route.ts:51-67 | for a valid name: a name reported taken is refused by registration with 400, and a name reported available is never refused as taken. The two disagree when only an unverified account holds the name: it is reported available, yet registering it with a new email fails with 500 "Error registering user" and stores nothing |
| Lifecycle.RegisterThenVerify | app/api/verify-code/route.ts:26-39 | registering "neo" in an empty collection stores one pending account; a wrong code is refused and the mailed code verifies it |
| Api.Server.constructor | models/user.ts:70 | a new server holds an empty, consistent collection |
| Api.Server.Insert | app/api/signup/route.ts:69 | the collection becomes what `Store.SaveNew` gives, and the result says whether the insert was accepted |
| Api.Server.Save | app/api/verify-code/route.ts:31 | the collection becomes what `Store.SaveExisting` gives, and the result says whether the save was accepted |
| Api.Server.Signup | app/api/signup/route.ts:22-98 | edits the pending document field by field or inserts a new one; the reply, the mail and the new collection are those of `SignupRoute.Post`, and the collection stays consistent |
| Api.Server.VerifyCode | app/api/verify-code/route.ts:9-64 | sets the flag on the copied document and saves it; the reply and new collection are those of `VerifyCodeRoute.Post`, and the collection stays consistent |
| Api.Server.SendMessage | app/api/send-messages/route.ts:11-60 | appends to the copied document's messages and saves it; the reply and new collection are those of `SendMessagesRoute.Post`, and the collection stays consistent |
| Api.Server.SetAcceptMessages | app/api/accept-messages/route.ts:12-51 | updates the flag in place; the reply and new collection are those of `AcceptMessagesRoute.Post`, and the collection stays consistent |

## Left out

- The 405 replies for other request methods (app/api/signup/route.ts:10-17 and app/api/is-username-unique/route.ts:14-21) are left out: the model has no request method. The framework routes only POST to `POST`, so the signup branch never runs. It can answer HEAD with `GET` when no `HEAD` handler is exported, and the is-username-unique branch then replies 405.
- Body parsing, the database connection and the URL parser are left out. The model reaches each handler's catch block only through `save()`.
  - A failed connection gets no reply at all. Every handler awaits `databaseConnect()` before its `try`, and that function ends the process on failure (lib/db-connect.ts:24-27).
  - The catch block also answers 500 when `request.json()` throws, when the URL is malformed, or when a query throws because the connection was lost later.
- `decodeURIComponent` on the verify-code username is left out: the model takes the username as already decoded.
- The username format rule (`usernameValidation`) stays an abstract parameter. Its definition is not part of this model.
- The signup expiry on new accounts (`setHours(getHours() + 1)`) is modelled as now + 3600000: daylight-saving changes are ignored.
- Request fields are strings and booleans, as the client sends them. The model does not cover a missing JSON field (Mongoose leaves it unset), a non-string `otp`, or a non-boolean `acceptMessages` that Mongoose would cast.
- AcceptMessagesRoute.Post: `findByIdAndUpdate` runs no validators (`runValidators` is off by default). The model writes the flag directly without them. The flag is no unique key, so the unique indexes the database still enforces never refuse this write.
- Bcrypt hashing, the random code, the clock, the mail provider and the session lookup are inputs (listed above), not computed.
- Document identifiers are a counter (`nextId`) rather than MongoDB ObjectIds. Only their uniqueness matters here.
- Message sub-documents carry no `_id`. Mongoose gives each one an id, but only message deletion reads it, and that route is not part of this model.
- Concurrent requests are not modelled: each request runs alone, from one state to the next.
- Not modelled: the other routes and the UI (get-messages, delete-message, sign-in and the session callbacks, suggest-messages, the pages and components), and the database connection cache. They are outside the account and messaging core.

## Findings

| source | as written | input that shows it | evidently intended | confidence | as-written member | corrected member |
|---|---|---|---|---|---|---|
| app/api/signup/route.ts:73-77 | `sendVerificationMail(email, username, otp)` is called against the signature `(username, email, otp)` at helpers/send-verification-email.ts:6-10, so the mail goes `to` the username | username "neo", email "neo@x.com": the code is sent to "neo" | the mail goes to the registered email and greets the username | high; not executed | SignupRoute.MailAsWrittenExample | SignupRoute.SignupMail |
| models/user.ts:18 | `default: Date.now()` is evaluated once, when the schema is defined, so every message built without a timestamp gets that one instant | two messages built at t1 != t2 without `createdAt` get the same timestamp | `default: Date.now` (the function), stamping each message when it is built | high; not executed | UserModel.MessageDefaultIsFrozen | UserModel.MakeMessageStamps |

The handlers in this model use the corrected definitions:

- registration mails through `SignupMail`;
- send-messages builds its message with `MakeMessage`.

send-messages passes `createdAt: new Date()` explicitly (app/api/send-messages/route.ts:37-40), so the frozen default only affects messages built without a timestamp.
