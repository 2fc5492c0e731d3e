/**
 * The state-changing route handlers run against the users collection, updated in place.
 *
 * A Mongoose document read with `findOne`/`findById` is an in-memory copy: the handlers edit its
 * fields one by one and `save()` writes it back. Here the copy is a `User` value taken out of
 * `users`, edited field by field, and written back by `Save`; the accept-flag update is a
 * `findByIdAndUpdate` instead, written in place without validation. Each handler is proved to leave
 * exactly the reply and state its route's specification function computes, so every property
 * proved about those functions holds of the handlers. The read-only handlers (GET
 * /api/accept-messages, GET /api/is-username-unique) are the functions
 * `AcceptMessagesRoute.Get` and `IsUsernameUniqueRoute.Get` applied to `State()`.
 */
module Api {
  import opened Wrappers
  import opened UserModel
  import opened Store
  import opened Responses
  import SignupRoute
  import VerifyCodeRoute
  import SendMessagesRoute
  import AcceptMessagesRoute

  class Server {
    /** The collection's documents, in natural order. */
    var users: seq<User>
    /** The identifier the next inserted document gets. */
    var nextId: nat

    /** The collection as a value. */
    function State(): Db
      reads this
    {
      Db(users, nextId)
    }

    /** The schema's validators and the unique indexes hold of every stored document. */
    ghost predicate Valid()
      reads this
    {
      Consistent(State())
    }

    /** An empty collection. */
    constructor ()
      ensures Valid() && users == [] && nextId == 0
    {
      users := [];
      nextId := 0;
    }

    /** `save()` of a new document: validated, refused on a duplicate key, else appended. */
    method Insert(doc: User) returns (saved: bool)
      modifies this
      ensures saved == Store.SaveNew(old(State()), doc).Some?
      ensures State() == Store.SaveNew(old(State()), doc).GetOr(old(State()))
    {
      if WellFormed(doc) && !KeyTaken(users, doc, -1) {
        users := users + [doc];
        if nextId <= doc.id {
          nextId := doc.id + 1;
        }
        saved := true;
      } else {
        saved := false;
      }
    }

    /** `save()` of an edited copy: validated, refused on a duplicate key, else written over its original. */
    method Save(doc: User) returns (saved: bool)
      modifies this
      ensures saved == SaveExisting(old(State()), doc).Some?
      ensures State() == SaveExisting(old(State()), doc).GetOr(old(State()))
    {
      var found := FindById(users, doc.id);
      if found.Some? && WellFormed(doc) && !KeyTaken(users, doc, found.value) {
        users := users[found.value := doc];
        saved := true;
      } else {
        saved := false;
      }
    }

    /**
     * POST /api/signup. `hashedPassword` is the value bcrypt produced for this request, `otp`
     * the drawn number, `mailDelivered` the mail provider's answer.
     */
    method Signup(username: string, email: string, hashedPassword: string, otp: nat, now: int,
                  mailDelivered: bool)
      returns (reply: Reply, mail: Option<SignupRoute.Mail>)
      requires Valid() && SignupRoute.OtpInRange(otp)
      modifies this
      ensures Valid() && Evolves(old(State()), State())
      ensures SignupRoute.Result(reply, State(), mail)
           == SignupRoute.Post(old(State()), username, email, hashedPassword, otp, now, mailDelivered)
    {
      SignupRoute.PostKeepsConsistent(State(), username, email, hashedPassword, otp, now, mailDelivered);
      mail := None;
      if FindVerifiedByUsername(users, Trim(username)).Some? {
        reply := Err(UsernameTaken, 400, "Username already exists");
        return;
      }
      var code := SignupRoute.Decimal(otp);
      var existing := FindByEmail(users, email);
      if existing.Some? {
        var user := users[existing.value];
        if user.isVerified {
          reply := Err(EmailTaken, 400, "User already exists with this email");
          return;
        }
        user := user.(password := hashedPassword);
        user := user.(verifyCode := code);
        user := user.(verifyCodeExpiry := now + SignupRoute.OneHour);
        var saved := Save(user);
        if !saved {
          reply := Err(StoreRejected, 500, SignupRoute.RegisterErrorMessage);
          return;
        }
      } else {
        var newUser := MakeUser(nextId, username, email, hashedPassword, code, now + SignupRoute.OneHour,
                                Some(false), Some(true), []);
        var saved := Insert(newUser);
        if !saved {
          reply := Err(StoreRejected, 500, SignupRoute.RegisterErrorMessage);
          return;
        }
      }
      mail := Some(SignupRoute.SignupMail(username, email, code));
      if !mailDelivered {
        reply := Err(MailFailed, 500, SignupRoute.MailFailedMessage);
        return;
      }
      reply := Ok(201, SignupRoute.RegisteredMessage, NoPayload);
    }

    /** POST /api/verify-code. */
    method VerifyCode(username: string, otp: string, now: int) returns (reply: Reply)
      requires Valid()
      modifies this
      ensures Valid() && Evolves(old(State()), State())
      ensures VerifyCodeRoute.Outcome(reply, State()) == VerifyCodeRoute.Post(old(State()), username, otp, now)
    {
      VerifyCodeRoute.PostKeepsConsistent(State(), username, otp, now);
      var found := FindByUsername(users, Trim(username));
      if found.None? {
        reply := Err(UserNotFound, 400, "User not found");
        return;
      }
      var user := users[found.value];
      var isCodeValid := user.verifyCode == otp;
      var isCodeNotExpired := user.verifyCodeExpiry > now;
      if isCodeValid && isCodeNotExpired {
        user := user.(isVerified := true);
        var saved := Save(user);
        if !saved {
          reply := Err(StoreRejected, 500, "Error verifying user");
          return;
        }
        reply := Ok(200, VerifyCodeRoute.VerifiedMessage, NoPayload);
        return;
      }
      if !isCodeNotExpired {
        reply := Err(CodeExpired, 400, VerifyCodeRoute.ExpiredMessage);
      } else {
        reply := Err(CodeIncorrect, 400, VerifyCodeRoute.IncorrectMessage);
      }
    }

    /** POST /api/send-messages. */
    method SendMessage(username: string, content: string, now: int) returns (reply: Reply)
      requires Valid()
      modifies this
      ensures Valid() && Evolves(old(State()), State())
      ensures SendMessagesRoute.Outcome(reply, State()) == SendMessagesRoute.Post(old(State()), username, content, now)
    {
      SendMessagesRoute.PostKeepsConsistent(State(), username, content, now);
      var found := FindByUsername(users, Trim(username));
      if found.None? {
        reply := Err(UserNotFound, 404, "User not found");
        return;
      }
      var user := users[found.value];
      if !user.isAcceptingMessages {
        reply := Err(NotAccepting, 403, SendMessagesRoute.NotAcceptingMessage);
        return;
      }
      var newMessage := MakeMessage(content, Some(now), now);
      user := user.(messages := user.messages + [newMessage]);
      var saved := Save(user);
      if !saved {
        reply := Err(StoreRejected, 500, SendMessagesRoute.SendErrorMessage);
        return;
      }
      reply := Ok(201, SendMessagesRoute.SentMessage, NoPayload);
    }

    /** POST /api/accept-messages: `findByIdAndUpdate` sets the flag on the stored document in place. */
    method SetAcceptMessages(session: Option<UserId>, acceptMessages: bool) returns (reply: Reply)
      requires Valid()
      modifies this
      ensures Valid() && Evolves(old(State()), State())
      ensures AcceptMessagesRoute.Outcome(reply, State()) == AcceptMessagesRoute.Post(old(State()), session, acceptMessages)
    {
      AcceptMessagesRoute.PostKeepsConsistent(State(), session, acceptMessages);
      if session.None? {
        reply := Err(NotAuthenticated, 401, AcceptMessagesRoute.NotAuthenticatedMessage);
        return;
      }
      var found := FindById(users, session.value);
      if found.None? {
        reply := Err(UpdateFailed, 401, "Failed to update user");
        return;
      }
      var updatedUser := users[found.value].(isAcceptingMessages := acceptMessages);
      users := users[found.value := updatedUser];
      reply := Ok(200, AcceptMessagesRoute.UpdatedMessage, UpdatedUser(updatedUser));
    }
  }
}
