/**
 * POST /api/send-messages (app/api/send-messages/route.ts): an anonymous message is appended to
 * the recipient's list, provided the recipient exists and accepts messages. The lookup is by
 * username alone: the recipient need not be verified.
 */
module SendMessagesRoute {
  import opened Wrappers
  import opened UserModel
  import opened Store
  import opened Responses

  /** The reply and the collection afterwards. */
  datatype Outcome = Outcome(reply: Reply, db: Db)

  const SentMessage: string := "Message sent successfully"
  const NotAcceptingMessage: string := "User is not accepting messages"
  const SendErrorMessage: string := "Error sending the message"

  /** The account after `user.messages.push({ content, createdAt: new Date() })`. */
  function WithMessage(user: User, content: string, now: int): User {
    user.(messages := user.messages + [MakeMessage(content, Some(now), now)])
  }

  /**
   * The handler. The `username` filter is trimmed by the schema's setter. `save()` refuses a
   * message without content, which the catch block answers with 500.
   */
  function Post(db: Db, username: string, content: string, now: int): Outcome {
    match FindByUsername(db.users, Trim(username))
    case None => Outcome(Err(UserNotFound, 404, "User not found"), db)
    case Some(i) =>
      if !db.users[i].isAcceptingMessages then
        Outcome(Err(NotAccepting, 403, NotAcceptingMessage), db)
      else
        match SaveExisting(db, WithMessage(db.users[i], content, now))
        case None => Outcome(Err(StoreRejected, 500, SendErrorMessage), db)
        case Some(db') => Outcome(Ok(201, SentMessage, NoPayload), db')
  }

  /** An unknown recipient is answered with 404 and changes nothing. */
  lemma PostUnknownRecipient(db: Db, username: string, content: string, now: int)
    requires !HasUsername(db.users, Trim(username))
    ensures Post(db, username, content, now) == Outcome(Err(UserNotFound, 404, "User not found"), db)
  {
  }

  /** A recipient who does not accept messages gets none, whatever the content: 403, nothing changes. */
  lemma PostRefusedWhenNotAccepting(db: Db, username: string, content: string, now: int, i: nat)
    requires Consistent(db) && i < |db.users| && db.users[i].username == Trim(username)
    requires !db.users[i].isAcceptingMessages
    ensures Post(db, username, content, now) == Outcome(Err(NotAccepting, 403, NotAcceptingMessage), db)
  {
    FindByUsernameUnique(db, Trim(username), i);
  }

  /**
   * A recipient who accepts messages, verified or not, gets exactly one more message, last in
   * the list, with the given content and the current time; the reply is 201, no other field of
   * the recipient and no other account changes.
   */
  lemma PostAppends(db: Db, username: string, content: string, now: int, i: nat)
    requires Consistent(db) && i < |db.users| && db.users[i].username == Trim(username)
    requires db.users[i].isAcceptingMessages && content != []
    ensures var out := Post(db, username, content, now);
      && out.reply == Ok(201, SentMessage, NoPayload)
      && out.db.nextId == db.nextId
      && |out.db.users| == |db.users|
      && out.db.users[i].messages == db.users[i].messages + [Message(content, now)]
      && |out.db.users[i].messages| == |db.users[i].messages| + 1
      && out.db.users[i] == db.users[i].(messages := out.db.users[i].messages)
      && forall j :: 0 <= j < |db.users| && j != i ==> out.db.users[j] == db.users[j]
  {
    FindByUsernameUnique(db, Trim(username), i);
    var doc := WithMessage(db.users[i], content, now);
    assert WellFormed(doc) by {
      forall m | m in doc.messages
        ensures m.content != []
      {
        if m !in db.users[i].messages {
          assert m == Message(content, now);
        }
      }
    }
    SaveExistingEditSucceeds(db, i, doc);
  }

  /** A message without content fails validation: 500, and the list is unchanged. */
  lemma PostRejectsEmptyContent(db: Db, username: string, now: int)
    ensures Post(db, username, [], now).db == db
    ensures Post(db, username, [], now).reply.Err?
  {
    match FindByUsername(db.users, Trim(username))
    case None =>
    case Some(i) =>
      var doc := WithMessage(db.users[i], [], now);
      assert doc.messages[|doc.messages| - 1].content == [];
      assert !WellFormed(doc);
  }

  /** Sending keeps the collection consistent and never removes, renames or un-verifies an account. */
  lemma PostKeepsConsistent(db: Db, username: string, content: string, now: int)
    requires Consistent(db)
    ensures Consistent(Post(db, username, content, now).db)
    ensures Evolves(db, Post(db, username, content, now).db)
  {
    match FindByUsername(db.users, Trim(username))
    case None =>
    case Some(i) =>
      var doc := WithMessage(db.users[i], content, now);
      if db.users[i].isAcceptingMessages && SaveExisting(db, doc).Some? {
        SaveExistingAt(db, i, doc);
      }
  }
}
