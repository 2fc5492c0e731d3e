/**
 * POST and GET /api/accept-messages (app/api/accept-messages/route.ts): the signed-in user sets
 * or reads the flag that gates incoming messages. The session is reduced to the user id it
 * carries: `None` stands for "no session" and for "a session without a user" alike.
 */
module AcceptMessagesRoute {
  import opened Wrappers
  import opened UserModel
  import opened Store
  import opened Responses

  /** The reply and the collection afterwards. */
  datatype Outcome = Outcome(reply: Reply, db: Db)

  const NotAuthenticatedMessage: string := "Not Authenticated."
  const UpdatedMessage: string := "Updated message acceptance status successfully"
  const FoundMessage: string := "User found with message acceptance status"

  /** Some account has this identifier. */
  ghost predicate HasId(users: seq<User>, id: UserId) {
    exists j :: 0 <= j < |users| && users[j].id == id
  }

  /**
   * POST: `findByIdAndUpdate(userId, { isAcceptingMessages }, { new: true })`, an update in the
   * collection that runs no validators, answered with the updated document.
   */
  function Post(db: Db, session: Option<UserId>, acceptMessages: bool): Outcome {
    match session
    case None => Outcome(Err(NotAuthenticated, 401, NotAuthenticatedMessage), db)
    case Some(id) =>
      match FindById(db.users, id)
      case None => Outcome(Err(UpdateFailed, 401, "Failed to update user"), db)
      case Some(i) =>
        var updated := db.users[i].(isAcceptingMessages := acceptMessages);
        Outcome(Ok(200, UpdatedMessage, UpdatedUser(updated)), db.(users := db.users[i := updated]))
  }

  /** GET: a pure read of the signed-in user's flag. */
  function Get(db: Db, session: Option<UserId>): (r: Reply)
    ensures session.None? ==> r == Err(NotAuthenticated, 401, NotAuthenticatedMessage)
    ensures session.Some? ==> (r.Ok? <==> HasId(db.users, session.value))
    ensures session.Some? && r.Err? ==> r == Err(UserNotFound, 401, "User not found")
    ensures r.Ok? ==> exists i :: 0 <= i < |db.users| && db.users[i].id == session.value
                        && r == Ok(200, FoundMessage, AcceptFlag(db.users[i].isAcceptingMessages))
  {
    match session
    case None => Err(NotAuthenticated, 401, NotAuthenticatedMessage)
    case Some(id) =>
      match FindById(db.users, id)
      case None => Err(UserNotFound, 401, "User not found")
      case Some(i) => Ok(200, FoundMessage, AcceptFlag(db.users[i].isAcceptingMessages))
  }

  /** Without a signed-in user the request is answered with 401 and nothing changes. */
  lemma PostUnauthenticated(db: Db, acceptMessages: bool)
    ensures Post(db, None, acceptMessages) == Outcome(Err(NotAuthenticated, 401, NotAuthenticatedMessage), db)
  {
  }

  /** A session whose id matches no account is answered with 401 and nothing changes. */
  lemma PostUnknownId(db: Db, id: UserId, acceptMessages: bool)
    requires !HasId(db.users, id)
    ensures Post(db, Some(id), acceptMessages) == Outcome(Err(UpdateFailed, 401, "Failed to update user"), db)
  {
  }

  /**
   * For the signed-in account at i, the flag becomes the supplied value, nothing else in the
   * collection changes, and the reply carries the account as updated.
   */
  lemma PostSetsFlag(db: Db, i: nat, acceptMessages: bool)
    requires Consistent(db) && i < |db.users|
    ensures var out := Post(db, Some(db.users[i].id), acceptMessages);
      && out.db == db.(users := db.users[i := db.users[i].(isAcceptingMessages := acceptMessages)])
      && out.db.users[i].isAcceptingMessages == acceptMessages
      && (forall j :: 0 <= j < |db.users| && j != i ==> out.db.users[j] == db.users[j])
      && out.reply == Ok(200, UpdatedMessage, UpdatedUser(out.db.users[i]))
  {
    FindByIdUnique(db, i);
  }

  /** Setting the same value twice is the same as setting it once. */
  lemma PostIdempotent(db: Db, session: Option<UserId>, acceptMessages: bool)
    requires Consistent(db)
    ensures var db1 := Post(db, session, acceptMessages).db;
      Post(db1, session, acceptMessages) == Post(db, session, acceptMessages).(db := db1)
      && Post(db1, session, acceptMessages).db == db1
  {
    if session.Some? && FindById(db.users, session.value).Some? {
      var i := FindById(db.users, session.value).value;
      PostSetsFlag(db, i, acceptMessages);
      var db1 := Post(db, session, acceptMessages).db;
      PostKeepsConsistent(db, session, acceptMessages);
      PostSetsFlag(db1, i, acceptMessages);
      assert db1.users[i := db1.users[i].(isAcceptingMessages := acceptMessages)] == db1.users;
    }
  }

  /** After a successful POST, GET reports the value just set. */
  lemma GetAfterPost(db: Db, session: Option<UserId>, acceptMessages: bool)
    requires Consistent(db)
    requires Post(db, session, acceptMessages).reply.Ok?
    ensures Get(Post(db, session, acceptMessages).db, session) == Ok(200, FoundMessage, AcceptFlag(acceptMessages))
  {
    var i := FindById(db.users, session.value).value;
    PostSetsFlag(db, i, acceptMessages);
    PostKeepsConsistent(db, session, acceptMessages);
    FindByIdUnique(Post(db, session, acceptMessages).db, i);
  }

  /** Changing the flag keeps the collection consistent, renames no account and changes no account's verification. */
  lemma PostKeepsConsistent(db: Db, session: Option<UserId>, acceptMessages: bool)
    requires Consistent(db)
    ensures Consistent(Post(db, session, acceptMessages).db)
    ensures Evolves(db, Post(db, session, acceptMessages).db)
  {
    if session.Some? && FindById(db.users, session.value).Some? {
      var i := FindById(db.users, session.value).value;
      var db1 := Post(db, session, acceptMessages).db;
      assert db1.users == db.users[i := db.users[i].(isAcceptingMessages := acceptMessages)];
      assert WellFormed(db1.users[i]);
    }
  }
}
