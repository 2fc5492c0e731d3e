/**
 * GET /api/is-username-unique (app/api/is-username-unique/route.ts): a read-only availability
 * check. The query parameter is validated first by a format rule defined outside this code
 * (here a parameter); a valid name is available unless a verified user already holds it.
 */
module IsUsernameUniqueRoute {
  import opened Wrappers
  import opened UserModel
  import opened Store
  import opened Responses

  /** The outcome of the format rule: valid, or the list of its error messages. */
  datatype Validation = Valid | Invalid(errors: seq<string>)

  const UniqueMessage: string := "Username is unique"
  const TakenMessage: string := "Username is already taken"
  const InvalidMessage: string := "Invalid query parameters"

  /** `Array.prototype.join(sep)`. */
  function Join(parts: seq<string>, sep: string): string {
    if |parts| == 0 then []
    else if |parts| == 1 then parts[0]
    else parts[0] + sep + Join(parts[1..], sep)
  }

  /** The combined length of the parts. */
  function TotalLength(parts: seq<string>): nat {
    if parts == [] then 0 else |parts[0]| + TotalLength(parts[1..])
  }

  /** The joined string holds every part and one separator between each two neighbours, nothing more. */
  lemma {:induction false} JoinLength(parts: seq<string>, sep: string)
    requires |parts| > 0
    ensures |Join(parts, sep)| == TotalLength(parts) + (|parts| - 1) * |sep|
    decreases |parts|
  {
    if |parts| > 1 {
      JoinLength(parts[1..], sep);
    } else {
      assert parts[1..] == [];
    }
  }

  /**
   * Joining one more part appends the separator and that part: `Join` agrees with the
   * left-to-right accumulation `Array.prototype.join` performs, so every part appears, in order,
   * between separators.
   */
  lemma {:induction false} JoinSnoc(parts: seq<string>, p: string, sep: string)
    requires |parts| > 0
    ensures Join(parts + [p], sep) == Join(parts, sep) + sep + p
    decreases |parts|
  {
    if |parts| == 1 {
      assert (parts + [p])[1..] == [p];
    } else {
      assert (parts + [p])[1..] == parts[1..] + [p];
      JoinSnoc(parts[1..], p, sep);
    }
  }

  /** The joined string starts with the first part, followed by the separator when more parts follow. */
  lemma {:induction false} JoinStartsWithFirst(parts: seq<string>, sep: string)
    requires |parts| > 0
    ensures |parts[0]| <= |Join(parts, sep)| && Join(parts, sep)[..|parts[0]|] == parts[0]
    ensures |parts| > 1 ==> Join(parts, sep)[..|parts[0]| + |sep|] == parts[0] + sep
  {
  }

  /**
   * The handler: it only reads the collection. A name another user holds without having verified
   * it is reported available; a taken name is answered with `success: false` and status 500.
   */
  function Get(db: Db, username: string, rule: string -> Validation): (r: Reply)
    ensures rule(username).Invalid? ==> r.Err? && r.error == InvalidQuery && r.status == 400
    ensures rule(username) == Invalid([]) ==> r == Err(InvalidQuery, 400, InvalidMessage)
    ensures rule(username).Invalid? && |rule(username).errors| > 0 ==>
              r == Err(InvalidQuery, 400, Join(rule(username).errors, ", "))
    ensures rule(username).Valid? ==> (r.Ok? <==> !HasVerifiedUsername(db.users, Trim(username)))
    ensures rule(username).Valid? && r.Ok? ==> r == Ok(201, UniqueMessage, NoPayload)
    ensures rule(username).Valid? && r.Err? ==> r == Err(UsernameTaken, 500, TakenMessage)
  {
    match rule(username)
    case Invalid(errors) =>
      Err(InvalidQuery, 400, if |errors| > 0 then Join(errors, ", ") else InvalidMessage)
    case Valid =>
      if FindVerifiedByUsername(db.users, Trim(username)).Some? then Err(UsernameTaken, 500, TakenMessage)
      else Ok(201, UniqueMessage, NoPayload)
  }

  /** A name that only an unverified account holds is reported available with 201. */
  lemma GetHeldOnlyByUnverified(db: Db, username: string, rule: string -> Validation, i: nat)
    requires Consistent(db) && rule(username).Valid?
    requires i < |db.users| && db.users[i].username == Trim(username) && !db.users[i].isVerified
    ensures Get(db, username, rule) == Ok(201, UniqueMessage, NoPayload)
  {
    UnverifiedHolderExcludesVerified(db, Trim(username), i);
  }
}
