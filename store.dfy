/**
 * The users collection as the route handlers see it: `findOne`/`findById` as a search for the
 * first matching document, `save()` as a write that runs the schema validators and the unique
 * indexes on `_id`, `username` and `email` first (models/user.ts:33-67), and the invariant the
 * collection keeps because of them.
 */
module Store {
  import opened Wrappers
  import opened UserModel

  /** The collection's documents in natural order, and the next identifier it hands out. */
  datatype Db = Db(users: seq<User>, nextId: nat)

  /**
   * What the schema and the unique indexes guarantee of every stored state: each document passed
   * validation, and no two documents share an `_id`, a `username` or an `email`.
   */
  ghost predicate Consistent(db: Db) {
    && (forall i :: 0 <= i < |db.users| ==> WellFormed(db.users[i]) && db.users[i].id < db.nextId)
    && (forall i, j :: 0 <= i < |db.users| && 0 <= j < |db.users| && i != j ==>
          && db.users[i].id != db.users[j].id
          && db.users[i].username != db.users[j].username
          && db.users[i].email != db.users[j].email)
  }

  /**
   * How a stored state may change from one request to the next: documents are never removed or
   * reordered, keep their identifiers and usernames, and a verified account stays verified.
   */
  ghost predicate Evolves(db: Db, db': Db) {
    && |db.users| <= |db'.users|
    && forall i :: 0 <= i < |db.users| ==>
         && db'.users[i].id == db.users[i].id
         && db'.users[i].username == db.users[i].username
         && (db.users[i].isVerified ==> db'.users[i].isVerified)
  }

  /** Any number of requests, one after the other, change the collection only as one request may. */
  lemma EvolvesTransitive(db1: Db, db2: Db, db3: Db)
    requires Evolves(db1, db2) && Evolves(db2, db3)
    ensures Evolves(db1, db3)
  {
  }

  // ---------------------------------------------------------------------------------------------
  // Queries
  // ---------------------------------------------------------------------------------------------

  /** `findOne(filter)`: the position of the first document the filter matches. */
  function FindFirst(users: seq<User>, matches: User -> bool): (r: Option<nat>)
    ensures r.Some? ==> r.value < |users| && matches(users[r.value])
    ensures r.Some? ==> forall j :: 0 <= j < r.value ==> !matches(users[j])
    ensures r.None? ==> forall j :: 0 <= j < |users| ==> !matches(users[j])
  {
    if users == [] then None
    else if matches(users[0]) then Some(0)
    else match FindFirst(users[1..], matches)
      case None => None
      case Some(k) => Some(k + 1)
  }

  /** Some document has this username. */
  ghost predicate HasUsername(users: seq<User>, name: string) {
    exists j :: 0 <= j < |users| && users[j].username == name
  }

  /** Some verified document has this username. */
  ghost predicate HasVerifiedUsername(users: seq<User>, name: string) {
    exists j :: 0 <= j < |users| && users[j].username == name && users[j].isVerified
  }

  /** Some document has this email. */
  ghost predicate HasEmail(users: seq<User>, email: string) {
    exists j :: 0 <= j < |users| && users[j].email == email
  }

  /** `findOne({ username })`. */
  function FindByUsername(users: seq<User>, name: string): (r: Option<nat>)
    ensures r.Some? ==> r.value < |users| && users[r.value].username == name
    ensures r.None? <==> !HasUsername(users, name)
  {
    FindFirst(users, (u: User) => u.username == name)
  }

  /** `findOne({ username, isVerified: true })`. */
  function FindVerifiedByUsername(users: seq<User>, name: string): (r: Option<nat>)
    ensures r.Some? ==> r.value < |users| && users[r.value].username == name && users[r.value].isVerified
    ensures r.None? <==> !HasVerifiedUsername(users, name)
  {
    FindFirst(users, (u: User) => u.username == name && u.isVerified)
  }

  /** `findOne({ email })`. */
  function FindByEmail(users: seq<User>, email: string): (r: Option<nat>)
    ensures r.Some? ==> r.value < |users| && users[r.value].email == email
    ensures r.None? <==> !HasEmail(users, email)
  {
    FindFirst(users, (u: User) => u.email == email)
  }

  /** `findById(id)`. */
  function FindById(users: seq<User>, id: UserId): (r: Option<nat>)
    ensures r.Some? ==> r.value < |users| && users[r.value].id == id
    ensures r.None? <==> forall j :: 0 <= j < |users| ==> users[j].id != id
  {
    FindFirst(users, (u: User) => u.id == id)
  }

  /** In a consistent collection a username lookup finds the one document holding that name. */
  lemma FindByUsernameUnique(db: Db, name: string, i: nat)
    requires Consistent(db) && i < |db.users| && db.users[i].username == name
    ensures FindByUsername(db.users, name) == Some(i)
  {
    var r := FindByUsername(db.users, name);
    assert r.Some?;
  }

  /** In a consistent collection an email lookup finds the one document holding that email. */
  lemma FindByEmailUnique(db: Db, email: string, i: nat)
    requires Consistent(db) && i < |db.users| && db.users[i].email == email
    ensures FindByEmail(db.users, email) == Some(i)
  {
    var r := FindByEmail(db.users, email);
    assert r.Some?;
  }

  /** In a consistent collection an identifier lookup finds the one document with that `_id`. */
  lemma FindByIdUnique(db: Db, i: nat)
    requires Consistent(db) && i < |db.users|
    ensures FindById(db.users, db.users[i].id) == Some(i)
  {
    var r := FindById(db.users, db.users[i].id);
    assert r.Some?;
  }

  /** A holder of a name that is not verified means, by uniqueness, that no verified user holds it. */
  lemma UnverifiedHolderExcludesVerified(db: Db, name: string, i: nat)
    requires Consistent(db) && i < |db.users| && db.users[i].username == name && !db.users[i].isVerified
    ensures !HasVerifiedUsername(db.users, name)
  {
  }

  // ---------------------------------------------------------------------------------------------
  // save()
  // ---------------------------------------------------------------------------------------------

  /** Another document than the one at `except` already holds one of `doc`'s unique keys. */
  predicate KeyTaken(users: seq<User>, doc: User, except: int) {
    exists j :: 0 <= j < |users| && j != except &&
      (users[j].id == doc.id || users[j].username == doc.username || users[j].email == doc.email)
  }

  /**
   * `save()` of a new document: validation, then an insert that a duplicate key refuses.
   * `None` is the error `save()` throws.
   */
  function SaveNew(db: Db, doc: User): (r: Option<Db>)
    ensures r.Some? <==> WellFormed(doc) && !KeyTaken(db.users, doc, -1)
    ensures r.Some? ==> r.value.users == db.users + [doc] && doc.id < r.value.nextId
  {
    if WellFormed(doc) && !KeyTaken(db.users, doc, -1) then
      Some(Db(db.users + [doc], if doc.id < db.nextId then db.nextId else doc.id + 1))
    else
      None
  }

  /**
   * `save()` of a document that was read from the collection and then edited: validation, then
   * an update of the stored document with the same `_id` that a duplicate key refuses.
   * `None` is the error `save()` throws.
   */
  function SaveExisting(db: Db, doc: User): (r: Option<Db>)
    ensures r.Some? ==> exists i :: 0 <= i < |db.users| && db.users[i].id == doc.id && r.value == db.(users := db.users[i := doc])
    ensures r.Some? ==> WellFormed(doc)
  {
    match FindById(db.users, doc.id)
    case None => None
    case Some(i) =>
      if WellFormed(doc) && !KeyTaken(db.users, doc, i) then Some(db.(users := db.users[i := doc])) else None
  }

  /** Inserting what `SaveNew` accepts keeps the collection consistent. */
  lemma SaveNewKeepsConsistent(db: Db, doc: User)
    requires Consistent(db) && SaveNew(db, doc).Some?
    ensures Consistent(SaveNew(db, doc).value)
    ensures Evolves(db, SaveNew(db, doc).value)
  {
  }

  /** Writing back what `SaveExisting` accepts keeps the collection consistent. */
  lemma SaveExistingKeepsConsistent(db: Db, doc: User)
    requires Consistent(db) && SaveExisting(db, doc).Some?
    ensures Consistent(SaveExisting(db, doc).value)
  {
    var i := FindById(db.users, doc.id).value;
    var db' := SaveExisting(db, doc).value;
    assert db'.users == db.users[i := doc];
    assert !KeyTaken(db.users, doc, i);
  }

  /**
   * A successful save of the document whose `_id` is at i writes exactly that position, and
   * keeps the collection consistent; it renames and un-verifies nobody unless the copy itself does.
   */
  lemma SaveExistingAt(db: Db, i: nat, doc: User)
    requires Consistent(db) && i < |db.users| && db.users[i].id == doc.id && SaveExisting(db, doc).Some?
    ensures SaveExisting(db, doc).value == db.(users := db.users[i := doc])
    ensures Consistent(SaveExisting(db, doc).value)
    ensures doc.username == db.users[i].username && (db.users[i].isVerified ==> doc.isVerified) ==>
              Evolves(db, SaveExisting(db, doc).value)
  {
    FindByIdUnique(db, i);
    SaveExistingKeepsConsistent(db, doc);
  }

  /**
   * Saving an edited copy of the document at i succeeds whenever the copy keeps its `_id`, its
   * username and its email and still passes validation: no other document can hold its keys.
   */
  lemma SaveExistingEditSucceeds(db: Db, i: nat, doc: User)
    requires Consistent(db) && i < |db.users|
    requires doc.id == db.users[i].id && doc.username == db.users[i].username && doc.email == db.users[i].email
    requires WellFormed(doc)
    ensures SaveExisting(db, doc) == Some(db.(users := db.users[i := doc]))
  {
    FindByIdUnique(db, i);
  }
}
