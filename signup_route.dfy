/**
 * POST /api/signup (app/api/signup/route.ts): registration. A username held by a verified user
 * and an email held by a verified user are refused; an unverified account with the same email is
 * refreshed in place (new password hash, new code, new expiry); otherwise a new unverified
 * account is created. Every account written gets a six-digit code valid for one hour, which is
 * then mailed out.
 *
 * The bcrypt hash, the random draw and the clock are inputs: `hashedPassword` is what
 * `bcrypt.hash(password, 10)` returned for this request (it is salted, so it is not a function of
 * the password), `otp` is the drawn number, `now` the time in milliseconds, and `mailDelivered`
 * the mail provider's answer.
 */
module SignupRoute {
  import opened Wrappers
  import opened UserModel
  import opened Store
  import opened Responses

  /** `Date.now() + 3600000`, and `setHours(getHours() + 1)` ignoring daylight-saving changes. */
  const OneHour: int := 3600000

  const RegisteredMessage: string := "User registered successfully. Please verify your account."
  const MailFailedMessage: string := "Failed to send verification email"
  const RegisterErrorMessage: string := "Error registering user"

  /** The range of `Math.floor(100000 + Math.random() * 900000)`, as Math.random() lies in [0, 1). */
  predicate OtpInRange(otp: nat) {
    100000 <= otp <= 999999
  }

  // ---------------------------------------------------------------------------------------------
  // The code as a string: `.toString()` of the drawn number.
  // ---------------------------------------------------------------------------------------------

  predicate IsDigit(c: char) {
    '0' <= c <= '9'
  }

  predicate AllDigits(s: string) {
    forall k :: 0 <= k < |s| ==> IsDigit(s[k])
  }

  function DigitChar(d: nat): char
    requires d < 10
  {
    ('0' as int + d) as char
  }

  function DigitValue(c: char): nat
    requires IsDigit(c)
  {
    c as int - '0' as int
  }

  /** Decimal notation of n without leading zeros, as `Number.prototype.toString()` writes it. */
  function Decimal(n: nat): string
    decreases n
  {
    if n < 10 then [DigitChar(n)] else Decimal(n / 10) + [DigitChar(n % 10)]
  }

  /** The number a string of decimal digits denotes. */
  function DecimalValue(s: string): nat
    requires AllDigits(s)
  {
    if s == [] then 0 else DecimalValue(s[..|s| - 1]) * 10 + DigitValue(s[|s| - 1])
  }

  function Pow10(k: nat): nat {
    if k == 0 then 1 else 10 * Pow10(k - 1)
  }

  /** Reading back the decimal notation of n gives n. */
  lemma {:induction false} DecimalRoundTrip(n: nat)
    ensures AllDigits(Decimal(n)) && DecimalValue(Decimal(n)) == n
    decreases n
  {
    if n >= 10 {
      DecimalRoundTrip(n / 10);
      var s := Decimal(n);
      assert s[..|s| - 1] == Decimal(n / 10);
    }
  }

  /** Different numbers have different notations, so a stale code never equals a fresh one. */
  lemma DecimalInjective(m: nat, n: nat)
    requires m != n
    ensures Decimal(m) != Decimal(n)
  {
    DecimalRoundTrip(m);
    DecimalRoundTrip(n);
  }

  /** A number with k + 1 digits is written with k + 1 characters, the first of them not '0'. */
  lemma {:induction false} DecimalLength(n: nat, k: nat)
    requires Pow10(k) <= n < Pow10(k + 1)
    ensures |Decimal(n)| == k + 1 && Decimal(n)[0] != '0'
    decreases k
  {
    if k > 0 {
      assert Pow10(k) == 10 * Pow10(k - 1);
      assert Pow10(k + 1) == 10 * Pow10(k);
      assert Pow10(k - 1) <= n / 10 < Pow10(k);
      DecimalLength(n / 10, k - 1);
    } else {
      assert 1 <= n < 10;
    }
  }

  /** Every drawn code is six decimal digits without a leading zero, and denotes the drawn number. */
  lemma OtpCodeShape(otp: nat)
    requires OtpInRange(otp)
    ensures |Decimal(otp)| == 6 && AllDigits(Decimal(otp)) && Decimal(otp)[0] != '0'
    ensures DecimalValue(Decimal(otp)) == otp
  {
    assert Pow10(5) == 100000 && Pow10(6) == 1000000;
    DecimalLength(otp, 5);
    DecimalRoundTrip(otp);
  }

  // ---------------------------------------------------------------------------------------------
  // The verification mail.
  // ---------------------------------------------------------------------------------------------

  /** The mail the provider is asked to send: its address, the name it greets and the code. */
  datatype Mail = Mail(to: string, greeting: string, otp: string)

  /** `sendVerificationMail(username, email, otp)` addresses the mail `to: email`. */
  function VerificationMail(username: string, email: string, otp: string): Mail {
    Mail(email, username, otp)
  }

  /** The call as written passes `(email, username, otp)` to `(username, email, otp)`. */
  function MailAsWritten(username: string, email: string, otp: string): Mail {
    VerificationMail(email, username, otp)
  }

  /** As written, the mail goes to the username and greets the email address. */
  lemma MailAsWrittenIsMisaddressed(username: string, email: string, otp: string)
    ensures MailAsWritten(username, email, otp).to == username
    ensures MailAsWritten(username, email, otp).greeting == email
    ensures username != email ==> MailAsWritten(username, email, otp).to != email
  {
  }

  /** The counterexample: registering "neo" with "neo@x.com" mails the code to "neo". */
  lemma MailAsWrittenExample()
    ensures MailAsWritten("neo", "neo@x.com", "123456").to == "neo"
  {
  }

  /** The call with the arguments in the helper's order: the mail goes to the registered email. */
  function SignupMail(username: string, email: string, otp: string): (m: Mail)
    ensures m.to == email && m.greeting == username && m.otp == otp
  {
    VerificationMail(username, email, otp)
  }

  // ---------------------------------------------------------------------------------------------
  // The handler.
  // ---------------------------------------------------------------------------------------------

  /** The reply, the collection afterwards, and the mail handed to the provider, if any. */
  datatype Result = Result(reply: Reply, db: Db, mail: Option<Mail>)

  /** After the account is written: the mail is sent, and its outcome alone decides the reply. */
  function Deliver(db: Db, username: string, email: string, code: string, mailDelivered: bool): Result {
    Result(DeliveredReply(mailDelivered), db, Some(SignupMail(username, email, code)))
  }

  /** The reply once the account is written, decided by the mail provider. */
  function DeliveredReply(mailDelivered: bool): Reply {
    if mailDelivered then Ok(201, RegisteredMessage, NoPayload) else Err(MailFailed, 500, MailFailedMessage)
  }

  /** The handler. The `username` filter is trimmed by the schema's setter, as when it is stored. */
  function Post(db: Db, username: string, email: string, hashedPassword: string, otp: nat,
                now: int, mailDelivered: bool): Result
    requires OtpInRange(otp)
  {
    if FindVerifiedByUsername(db.users, Trim(username)).Some? then
      Result(Err(UsernameTaken, 400, "Username already exists"), db, None)
    else
      var code := Decimal(otp);
      match FindByEmail(db.users, email)
      case Some(i) =>
        if db.users[i].isVerified then
          Result(Err(EmailTaken, 400, "User already exists with this email"), db, None)
        else
          var doc := db.users[i].(password := hashedPassword, verifyCode := code,
                                  verifyCodeExpiry := now + OneHour);
          (match SaveExisting(db, doc)
           case None => Result(Err(StoreRejected, 500, RegisterErrorMessage), db, None)
           case Some(db') => Deliver(db', username, email, code, mailDelivered))
      case None =>
        var doc := MakeUser(db.nextId, username, email, hashedPassword, code, now + OneHour,
                            Some(false), Some(true), []);
        match SaveNew(db, doc)
        case None => Result(Err(StoreRejected, 500, RegisterErrorMessage), db, None)
        case Some(db') => Deliver(db', username, email, code, mailDelivered)
  }

  // ---------------------------------------------------------------------------------------------
  // Properties.
  // ---------------------------------------------------------------------------------------------

  /** A username a verified user holds is refused with 400, and nothing is written or mailed. */
  lemma PostRejectsVerifiedUsername(db: Db, username: string, email: string, hashedPassword: string,
                                    otp: nat, now: int, mailDelivered: bool)
    requires OtpInRange(otp) && HasVerifiedUsername(db.users, Trim(username))
    ensures Post(db, username, email, hashedPassword, otp, now, mailDelivered)
         == Result(Err(UsernameTaken, 400, "Username already exists"), db, None)
  {
  }

  /** An email a verified user holds is refused with 400, and nothing is written or mailed. */
  lemma PostRejectsVerifiedEmail(db: Db, username: string, email: string, hashedPassword: string,
                                 otp: nat, now: int, mailDelivered: bool, i: nat)
    requires Consistent(db) && OtpInRange(otp)
    requires !HasVerifiedUsername(db.users, Trim(username))
    requires i < |db.users| && db.users[i].email == email && db.users[i].isVerified
    ensures Post(db, username, email, hashedPassword, otp, now, mailDelivered)
         == Result(Err(EmailTaken, 400, "User already exists with this email"), db, None)
  {
    FindByEmailUnique(db, email, i);
  }

  /**
   * An unverified account with the email is refreshed in place: the same document gets the new
   * hash, the new code and an expiry one hour ahead, and keeps its username, flags and messages;
   * no document is added.
   */
  lemma PostRefreshesPending(db: Db, username: string, email: string, hashedPassword: string,
                             otp: nat, now: int, mailDelivered: bool, i: nat)
    requires Consistent(db) && OtpInRange(otp) && hashedPassword != []
    requires !HasVerifiedUsername(db.users, Trim(username))
    requires i < |db.users| && db.users[i].email == email && !db.users[i].isVerified
    ensures var out := Post(db, username, email, hashedPassword, otp, now, mailDelivered);
      && out.db == db.(users := db.users[i := db.users[i].(password := hashedPassword,
                                                           verifyCode := Decimal(otp),
                                                           verifyCodeExpiry := now + OneHour)])
      && |out.db.users| == |db.users|
      && out.db.users[i].username == db.users[i].username
      && !out.db.users[i].isVerified
      && out.db.users[i].isAcceptingMessages == db.users[i].isAcceptingMessages
      && out.db.users[i].messages == db.users[i].messages
      && out.mail == Some(SignupMail(username, email, Decimal(otp)))
      && out.reply == DeliveredReply(mailDelivered)
  {
    FindByEmailUnique(db, email, i);
    OtpCodeShape(otp);
    var doc := db.users[i].(password := hashedPassword, verifyCode := Decimal(otp),
                            verifyCodeExpiry := now + OneHour);
    SaveExistingEditSucceeds(db, i, doc);
  }

  /**
   * With neither the email nor the (trimmed) username in use, exactly one document is appended:
   * the next identifier, the trimmed username, unverified, accepting messages, no messages, and
   * a code that expires one hour from now.
   */
  lemma PostCreatesAccount(db: Db, username: string, email: string, hashedPassword: string,
                           otp: nat, now: int, mailDelivered: bool)
    requires Consistent(db) && OtpInRange(otp)
    requires !HasEmail(db.users, email) && !HasUsername(db.users, Trim(username))
    requires Trim(username) != [] && IsEmail(email) && hashedPassword != []
    ensures var out := Post(db, username, email, hashedPassword, otp, now, mailDelivered);
      && out.db == Db(db.users + [User(db.nextId, Trim(username), email, hashedPassword, Decimal(otp),
                                       now + OneHour, false, true, [])], db.nextId + 1)
      && out.mail == Some(SignupMail(username, email, Decimal(otp)))
      && out.reply == DeliveredReply(mailDelivered)
  {
    OtpCodeShape(otp);
    TrimIdempotent(username);
    var doc := MakeUser(db.nextId, username, email, hashedPassword, Decimal(otp), now + OneHour,
                        Some(false), Some(true), []);
    assert WellFormed(doc);
    assert !KeyTaken(db.users, doc, -1);
  }

  /**
   * A new account whose username an unverified user already holds breaks the unique index:
   * save() throws, the catch block answers 500, and nothing is written or mailed.
   */
  lemma PostPendingUsernameClash(db: Db, username: string, email: string, hashedPassword: string,
                                 otp: nat, now: int, mailDelivered: bool, i: nat)
    requires Consistent(db) && OtpInRange(otp) && !HasEmail(db.users, email)
    requires i < |db.users| && db.users[i].username == Trim(username) && !db.users[i].isVerified
    ensures Post(db, username, email, hashedPassword, otp, now, mailDelivered)
         == Result(Err(StoreRejected, 500, RegisterErrorMessage), db, None)
  {
    UnverifiedHolderExcludesVerified(db, Trim(username), i);
    var doc := MakeUser(db.nextId, username, email, hashedPassword, Decimal(otp), now + OneHour,
                        Some(false), Some(true), []);
    assert KeyTaken(db.users, doc, -1) by {
      assert db.users[i].username == doc.username;
    }
  }

  /**
   * A new account that fails validation (a username that trims to nothing, an email the pattern
   * rejects, an empty hash) is never stored: save() throws and the reply is 500.
   */
  lemma PostRejectsInvalidAccount(db: Db, username: string, email: string, hashedPassword: string,
                                  otp: nat, now: int, mailDelivered: bool)
    requires OtpInRange(otp)
    requires !HasVerifiedUsername(db.users, Trim(username)) && !HasEmail(db.users, email)
    requires Trim(username) == [] || !IsEmail(email) || hashedPassword == []
    ensures Post(db, username, email, hashedPassword, otp, now, mailDelivered)
         == Result(Err(StoreRejected, 500, RegisterErrorMessage), db, None)
  {
  }

  /**
   * What every request ends in. A refusal writes nothing and mails nothing. Otherwise the account
   * with this email holds the mailed code, unverified, expiring one hour from now, and the mail
   * provider alone decides between 201 and 500: the written account stays even when mailing fails.
   * The mail here is the corrected `SignupMail`; as written, the call is misaddressed to the
   * username (see `MailAsWrittenIsMisaddressed`).
   */
  lemma PostOutcomes(db: Db, username: string, email: string, hashedPassword: string,
                     otp: nat, now: int, mailDelivered: bool)
    requires OtpInRange(otp)
    ensures var out := Post(db, username, email, hashedPassword, otp, now, mailDelivered);
      && (out.mail.None? ==> out.db == db && out.reply.Err? && out.reply.status in {400, 500})
      && (out.mail.Some? ==>
            && out.mail.value == SignupMail(username, email, Decimal(otp))
            && out.reply == DeliveredReply(mailDelivered)
            && exists j :: 0 <= j < |out.db.users| && out.db.users[j].email == email
                 && out.db.users[j].verifyCode == out.mail.value.otp
                 && out.db.users[j].verifyCodeExpiry == now + OneHour
                 && !out.db.users[j].isVerified)
  {
    var out := Post(db, username, email, hashedPassword, otp, now, mailDelivered);
    if out.mail.Some? {
      var code := Decimal(otp);
      match FindByEmail(db.users, email)
      case Some(i) =>
        var doc := db.users[i].(password := hashedPassword, verifyCode := code,
                                verifyCodeExpiry := now + OneHour);
        var k :| 0 <= k < |db.users| && db.users[k].id == doc.id
              && SaveExisting(db, doc).value == db.(users := db.users[k := doc]);
        assert out.db.users[k] == doc;
      case None =>
        assert out.db.users[|db.users|].email == email;
    }
  }

  /** Registration keeps the collection consistent and never removes, renames or un-verifies an account. */
  lemma PostKeepsConsistent(db: Db, username: string, email: string, hashedPassword: string,
                            otp: nat, now: int, mailDelivered: bool)
    requires Consistent(db) && OtpInRange(otp)
    ensures Consistent(Post(db, username, email, hashedPassword, otp, now, mailDelivered).db)
    ensures Evolves(db, Post(db, username, email, hashedPassword, otp, now, mailDelivered).db)
  {
    if FindVerifiedByUsername(db.users, Trim(username)).None? {
      var code := Decimal(otp);
      match FindByEmail(db.users, email)
      case Some(i) =>
        if !db.users[i].isVerified {
          var doc := db.users[i].(password := hashedPassword, verifyCode := code,
                                  verifyCodeExpiry := now + OneHour);
          if SaveExisting(db, doc).Some? {
            SaveExistingAt(db, i, doc);
          }
        }
      case None =>
        var doc := MakeUser(db.nextId, username, email, hashedPassword, code, now + OneHour,
                            Some(false), Some(true), []);
        if SaveNew(db, doc).Some? {
          SaveNewKeepsConsistent(db, doc);
        }
    }
  }
}
