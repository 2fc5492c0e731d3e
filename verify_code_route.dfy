/**
 * POST /api/verify-code (app/api/verify-code/route.ts): the one-shot transition of an account to
 * verified. The code must equal the stored one exactly and the stored expiry must lie strictly
 * after `now`; on failure an expired code is reported in preference to a wrong one.
 * `username` is taken as already URI-decoded.
 */
module VerifyCodeRoute {
  import opened Wrappers
  import opened UserModel
  import opened Store
  import opened Responses

  /** The reply and the collection afterwards. */
  datatype Outcome = Outcome(reply: Reply, db: Db)

  const VerifiedMessage: string := "Account verified"
  const ExpiredMessage: string := "Verification code is expired"
  const IncorrectMessage: string := "Verification code is incorrect"

  /** The handler. The `username` filter is trimmed by the schema's setter. */
  function Post(db: Db, username: string, otp: string, now: int): Outcome {
    match FindByUsername(db.users, Trim(username))
    case None => Outcome(Err(UserNotFound, 400, "User not found"), db)
    case Some(i) =>
      var user := db.users[i];
      var isCodeValid := user.verifyCode == otp;
      var isCodeNotExpired := user.verifyCodeExpiry > now;
      if isCodeValid && isCodeNotExpired then
        (match SaveExisting(db, user.(isVerified := true))
         case None => Outcome(Err(StoreRejected, 500, "Error verifying user"), db)
         case Some(db') => Outcome(Ok(200, VerifiedMessage, NoPayload), db'))
      else if !isCodeNotExpired then
        Outcome(Err(CodeExpired, 400, ExpiredMessage), db)
      else
        Outcome(Err(CodeIncorrect, 400, IncorrectMessage), db)
  }

  /** An unknown username is answered with 400 and changes nothing. */
  lemma PostUnknownUser(db: Db, username: string, otp: string, now: int)
    requires !HasUsername(db.users, Trim(username))
    ensures Post(db, username, otp, now) == Outcome(Err(UserNotFound, 400, "User not found"), db)
  {
  }

  /**
   * For the account at i, verification succeeds exactly when the code matches and has not
   * expired, and then the only change is that the account is verified.
   */
  lemma PostSucceedsIff(db: Db, username: string, otp: string, now: int, i: nat)
    requires Consistent(db) && i < |db.users| && db.users[i].username == Trim(username)
    ensures var out := Post(db, username, otp, now);
      && (out.reply.Ok? <==> db.users[i].verifyCode == otp && db.users[i].verifyCodeExpiry > now)
      && (out.reply.Ok? ==>
            out.reply == Ok(200, VerifiedMessage, NoPayload)
            && out.db == db.(users := db.users[i := db.users[i].(isVerified := true)]))
  {
    FindByUsernameUnique(db, Trim(username), i);
    var doc := db.users[i].(isVerified := true);
    SaveExistingEditSucceeds(db, i, doc);
  }

  /** An expired code is reported as expired, whether or not it matches, and changes nothing. */
  lemma PostExpiredFirst(db: Db, username: string, otp: string, now: int, i: nat)
    requires Consistent(db) && i < |db.users| && db.users[i].username == Trim(username)
    requires db.users[i].verifyCodeExpiry <= now
    ensures Post(db, username, otp, now) == Outcome(Err(CodeExpired, 400, ExpiredMessage), db)
  {
    FindByUsernameUnique(db, Trim(username), i);
  }

  /** A code that has not expired but does not match is reported as incorrect and changes nothing. */
  lemma PostIncorrectCode(db: Db, username: string, otp: string, now: int, i: nat)
    requires Consistent(db) && i < |db.users| && db.users[i].username == Trim(username)
    requires db.users[i].verifyCodeExpiry > now && db.users[i].verifyCode != otp
    ensures Post(db, username, otp, now) == Outcome(Err(CodeIncorrect, 400, IncorrectMessage), db)
  {
    FindByUsernameUnique(db, Trim(username), i);
  }

  /** Every failure leaves the collection as it was; nothing is saved on those paths. */
  lemma PostFailureChangesNothing(db: Db, username: string, otp: string, now: int)
    ensures Post(db, username, otp, now).reply.Err? ==> Post(db, username, otp, now).db == db
  {
  }

  /**
   * Success keeps the code and its expiry, so verifying again with the same code before the
   * expiry succeeds again and changes nothing more: verification is idempotent.
   */
  lemma PostIdempotent(db: Db, username: string, otp: string, now: int)
    requires Consistent(db)
    requires Post(db, username, otp, now).reply.Ok?
    ensures var db1 := Post(db, username, otp, now).db;
      Post(db1, username, otp, now) == Outcome(Ok(200, VerifiedMessage, NoPayload), db1)
  {
    var i := FindByUsername(db.users, Trim(username)).value;
    PostSucceedsIff(db, username, otp, now, i);
    var db1 := Post(db, username, otp, now).db;
    PostKeepsConsistent(db, username, otp, now);
    PostSucceedsIff(db1, username, otp, now, i);
    assert db1.users[i].(isVerified := true) == db1.users[i];
    assert db1.(users := db1.users[i := db1.users[i]]) == db1;
  }

  /** Verification keeps the collection consistent, renames no account, and no path makes an account unverified. */
  lemma PostKeepsConsistent(db: Db, username: string, otp: string, now: int)
    requires Consistent(db)
    ensures Consistent(Post(db, username, otp, now).db)
    ensures Evolves(db, Post(db, username, otp, now).db)
  {
    match FindByUsername(db.users, Trim(username))
    case None =>
    case Some(i) =>
      var doc := db.users[i].(isVerified := true);
      if SaveExisting(db, doc).Some? {
        SaveExistingAt(db, i, doc);
      }
  }
}
