/**
 * Properties that span several routes: the account life cycle
 * Unregistered -> PendingVerification -> Verified, and how the routes agree with each other.
 */
module Lifecycle {
  import opened Wrappers
  import opened UserModel
  import opened Store
  import opened Responses
  import SignupRoute
  import VerifyCodeRoute
  import SendMessagesRoute
  import AcceptMessagesRoute
  import IsUsernameUniqueRoute

  /**
   * Once an account is verified, its username can never be registered again: not right after the
   * verifying request, nor in any later state the collection evolves into.
   */
  lemma VerifiedUsernameNeverReRegistered(db: Db, name: string, code: string, now: int, db2: Db,
                                          username: string, email: string, hashedPassword: string,
                                          otp: nat, later: int, mailDelivered: bool)
    requires Consistent(db) && SignupRoute.OtpInRange(otp)
    requires VerifyCodeRoute.Post(db, name, code, now).reply.Ok?
    requires Evolves(VerifyCodeRoute.Post(db, name, code, now).db, db2)
    requires Trim(username) == Trim(name)
    ensures SignupRoute.Post(db2, username, email, hashedPassword, otp, later, mailDelivered)
         == SignupRoute.Result(Err(UsernameTaken, 400, "Username already exists"), db2, None)
  {
    var i := FindByUsername(db.users, Trim(name)).value;
    VerifyCodeRoute.PostSucceedsIff(db, name, code, now, i);
    var db1 := VerifyCodeRoute.Post(db, name, code, now).db;
    assert db1.users[i].username == Trim(username) && db1.users[i].isVerified;
    assert db2.users[i].username == Trim(username) && db2.users[i].isVerified;
    SignupRoute.PostRejectsVerifiedUsername(db2, username, email, hashedPassword, otp, later, mailDelivered);
  }

  /** The verifying request itself is such an evolution, so the name is refused right after it, too. */
  lemma VerifiedUsernameRefusedAfterVerify(db: Db, name: string, code: string, now: int,
                                           username: string, email: string, hashedPassword: string,
                                           otp: nat, later: int, mailDelivered: bool)
    requires Consistent(db) && SignupRoute.OtpInRange(otp)
    requires VerifyCodeRoute.Post(db, name, code, now).reply.Ok?
    requires Trim(username) == Trim(name)
    ensures var db1 := VerifyCodeRoute.Post(db, name, code, now).db;
      SignupRoute.Post(db1, username, email, hashedPassword, otp, later, mailDelivered)
        == SignupRoute.Result(Err(UsernameTaken, 400, "Username already exists"), db1, None)
  {
    var db1 := VerifyCodeRoute.Post(db, name, code, now).db;
    VerifyCodeRoute.PostKeepsConsistent(db, name, code, now);
    VerifiedUsernameNeverReRegistered(db, name, code, now, db1, username, email, hashedPassword,
                                      otp, later, mailDelivered);
  }

  /**
   * Registering again with the email of a pending account replaces its code: the code mailed
   * the first time is then refused as incorrect while the new one is still valid.
   */
  lemma StaleCodeRejected(db: Db, i: nat, username: string, hashedPassword: string,
                          oldOtp: nat, otp: nat, now: int, mailDelivered: bool, later: int)
    requires Consistent(db) && SignupRoute.OtpInRange(oldOtp) && SignupRoute.OtpInRange(otp)
    requires oldOtp != otp && hashedPassword != []
    requires i < |db.users| && !db.users[i].isVerified
    requires !HasVerifiedUsername(db.users, Trim(username))
    requires later < now + SignupRoute.OneHour
    ensures var db1 := SignupRoute.Post(db, username, db.users[i].email, hashedPassword, otp, now, mailDelivered).db;
      VerifyCodeRoute.Post(db1, db.users[i].username, SignupRoute.Decimal(oldOtp), later)
        == VerifyCodeRoute.Outcome(Err(CodeIncorrect, 400, VerifyCodeRoute.IncorrectMessage), db1)
  {
    var email := db.users[i].email;
    SignupRoute.PostRefreshesPending(db, username, email, hashedPassword, otp, now, mailDelivered, i);
    SignupRoute.PostKeepsConsistent(db, username, email, hashedPassword, otp, now, mailDelivered);
    var db1 := SignupRoute.Post(db, username, email, hashedPassword, otp, now, mailDelivered).db;
    SignupRoute.DecimalInjective(oldOtp, otp);
    TrimIdempotent(db.users[i].username);
    assert db1.users[i].username == Trim(db.users[i].username);
    VerifyCodeRoute.PostIncorrectCode(db1, db.users[i].username, SignupRoute.Decimal(oldOtp), later, i);
  }

  /** After the owner turns messages off, a message to them is refused with 403 and not stored. */
  lemma NoMessagesAfterTurningOff(db: Db, i: nat, content: string, now: int)
    requires Consistent(db) && i < |db.users|
    ensures var db1 := AcceptMessagesRoute.Post(db, Some(db.users[i].id), false).db;
      SendMessagesRoute.Post(db1, db.users[i].username, content, now)
        == SendMessagesRoute.Outcome(Err(NotAccepting, 403, SendMessagesRoute.NotAcceptingMessage), db1)
  {
    AcceptMessagesRoute.PostSetsFlag(db, i, false);
    AcceptMessagesRoute.PostKeepsConsistent(db, Some(db.users[i].id), false);
    var db1 := AcceptMessagesRoute.Post(db, Some(db.users[i].id), false).db;
    assert db1.users[i].username == Trim(db.users[i].username);
    SendMessagesRoute.PostRefusedWhenNotAccepting(db1, db.users[i].username, content, now, i);
  }

  /**
   * How the availability check and registration relate, for a name the format rule accepts:
   * a name reported taken is refused by registration with 400; a name reported available is never
   * refused as taken. But they disagree when only an unverified account holds the name: the check
   * reports it available, yet registering it with an email no account has breaks the unique index
   * on `username`, and the reply is 500 "Error registering user".
   */
  lemma UniqueCheckAgreesWithSignup(db: Db, username: string, rule: string -> IsUsernameUniqueRoute.Validation,
                                    email: string, hashedPassword: string, otp: nat, now: int,
                                    mailDelivered: bool)
    requires rule(username).Valid? && SignupRoute.OtpInRange(otp)
    ensures var check := IsUsernameUniqueRoute.Get(db, username, rule);
      var signup := SignupRoute.Post(db, username, email, hashedPassword, otp, now, mailDelivered);
      && (check.Err? ==> signup.reply == Err(UsernameTaken, 400, "Username already exists"))
      && (check.Ok? ==> signup.reply.Err? ==> signup.reply.error != UsernameTaken)
      && (check.Ok? && HasUsername(db.users, Trim(username)) && !HasEmail(db.users, email) ==>
            signup.reply == Err(StoreRejected, 500, SignupRoute.RegisterErrorMessage) && signup.db == db)
  {
    var check := IsUsernameUniqueRoute.Get(db, username, rule);
    if check.Ok? && HasUsername(db.users, Trim(username)) && !HasEmail(db.users, email) {
      var i :| 0 <= i < |db.users| && db.users[i].username == Trim(username);
      var doc := MakeUser(db.nextId, username, email, hashedPassword, SignupRoute.Decimal(otp),
                          now + SignupRoute.OneHour, Some(false), Some(true), []);
      assert KeyTaken(db.users, doc, -1) by {
        assert db.users[i].username == doc.username;
      }
    }
  }

  /** The walk-through: register "neo", a wrong code is refused, the mailed code verifies the account. */
  lemma RegisterThenVerify(hashedPassword: string, otp: nat, now: int)
    requires SignupRoute.OtpInRange(otp) && hashedPassword != []
    ensures var out := SignupRoute.Post(Db([], 0), "neo", "neo@x.com", hashedPassword, otp, now, true);
      && out.reply.Ok? && out.reply.status == 201
      && out.db.users == [User(0, "neo", "neo@x.com", hashedPassword, SignupRoute.Decimal(otp),
                               now + SignupRoute.OneHour, false, true, [])]
      && VerifyCodeRoute.Post(out.db, "neo", "000000", now).reply == Err(CodeIncorrect, 400, VerifyCodeRoute.IncorrectMessage)
      && VerifyCodeRoute.Post(out.db, "neo", out.mail.value.otp, now).reply.Ok?
      && VerifyCodeRoute.Post(out.db, "neo", out.mail.value.otp, now).db.users[0].isVerified
  {
    var db := Db([], 0);
    assert Trim("neo") == "neo" by {
      assert "neo" == [] + "neo" + [];
      TrimCharacterization([], "neo", []);
    }
    IsEmailAcceptsAddress();
    SignupRoute.PostCreatesAccount(db, "neo", "neo@x.com", hashedPassword, otp, now, true);
    var out := SignupRoute.Post(db, "neo", "neo@x.com", hashedPassword, otp, now, true);
    SignupRoute.PostKeepsConsistent(db, "neo", "neo@x.com", hashedPassword, otp, now, true);
    SignupRoute.OtpCodeShape(otp);
    assert SignupRoute.Decimal(otp) != "000000";
    VerifyCodeRoute.PostSucceedsIff(out.db, "neo", "000000", now, 0);
    VerifyCodeRoute.PostSucceedsIff(out.db, "neo", SignupRoute.Decimal(otp), now, 0);
  }
}
