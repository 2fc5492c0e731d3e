/**
 * The User and Message documents of the user schema (models/user.ts): their shapes, the `trim`
 * setter and the defaults Mongoose applies when a document is built, and the validators
 * (`required`, the email pattern) it runs before a document is stored.
 */
module UserModel {
  import opened Wrappers

  /** A document identifier (`_id`); the collection assigns one to every new document. */
  type UserId = nat

  /** An embedded message sub-document. Timestamps are milliseconds since the epoch. */
  datatype Message = Message(content: string, createdAt: int)

  /** A user document. `password` holds the bcrypt hash, never the clear password. */
  datatype User = User(
    id: UserId,
    username: string,
    email: string,
    password: string,
    verifyCode: string,
    verifyCodeExpiry: int,
    isVerified: bool,
    isAcceptingMessages: bool,
    messages: seq<Message>)

  // ---------------------------------------------------------------------------------------------
  // The `trim: true` setter on `username`: String.prototype.trim.
  // ---------------------------------------------------------------------------------------------

  /** The characters String.prototype.trim strips: ECMAScript WhiteSpace and LineTerminator. */
  predicate IsWhitespace(c: char) {
    || c == ' ' || c == '\t' || c == '\n' || c == '\r' || c == '\U{B}' || c == '\U{C}'
    || c == '\U{A0}' || c == '\U{1680}' || ('\U{2000}' <= c <= '\U{200A}')
    || c == '\U{2028}' || c == '\U{2029}' || c == '\U{202F}' || c == '\U{205F}'
    || c == '\U{3000}' || c == '\U{FEFF}'
  }

  predicate AllWhitespace(s: string) {
    forall k :: 0 <= k < |s| ==> IsWhitespace(s[k])
  }

  /** Neither end of `s` is whitespace (vacuously so for the empty string). */
  predicate HasNoOuterWhitespace(s: string) {
    s == [] || (!IsWhitespace(s[0]) && !IsWhitespace(s[|s| - 1]))
  }

  function TrimStart(s: string): string {
    if s != [] && IsWhitespace(s[0]) then TrimStart(s[1..]) else s
  }

  function TrimEnd(s: string): string {
    if s != [] && IsWhitespace(s[|s| - 1]) then TrimEnd(s[..|s| - 1]) else s
  }

  /** The value the `trim` setter stores: `s` without leading and trailing whitespace. */
  function Trim(s: string): string {
    TrimEnd(TrimStart(s))
  }

  lemma {:induction false} TrimStartOf(w: string, t: string)
    requires AllWhitespace(w)
    requires t == [] || !IsWhitespace(t[0])
    ensures TrimStart(w + t) == t
  {
    if w != [] {
      assert (w + t)[1..] == w[1..] + t;
      TrimStartOf(w[1..], t);
    }
  }

  lemma {:induction false} TrimEndOf(t: string, w: string)
    requires AllWhitespace(w)
    requires t == [] || !IsWhitespace(t[|t| - 1])
    ensures TrimEnd(t + w) == t
  {
    if w != [] {
      assert (t + w)[..|t + w| - 1] == t + w[..|w| - 1];
      TrimEndOf(t, w[..|w| - 1]);
    } else {
      assert t + w == t;
    }
  }

  /**
   * Trim is characterised independently of how it scans: whatever whitespace surrounds a core
   * whose own ends are not whitespace, Trim returns exactly that core.
   */
  lemma TrimCharacterization(w1: string, t: string, w2: string)
    requires AllWhitespace(w1) && AllWhitespace(w2) && HasNoOuterWhitespace(t)
    ensures Trim(w1 + t + w2) == t
  {
    if t == [] {
      assert w1 + t + w2 == (w1 + w2) + [];
      TrimStartOf(w1 + w2, []);
    } else {
      assert w1 + t + w2 == w1 + (t + w2);
      TrimStartOf(w1, t + w2);
      TrimEndOf(t, w2);
    }
  }

  lemma {:induction false} TrimStartSplit(s: string) returns (w: string)
    ensures AllWhitespace(w) && s == w + TrimStart(s)
    ensures TrimStart(s) == [] || !IsWhitespace(TrimStart(s)[0])
  {
    if s != [] && IsWhitespace(s[0]) {
      var w' := TrimStartSplit(s[1..]);
      w := [s[0]] + w';
    } else {
      w := [];
    }
  }

  lemma {:induction false} TrimEndSplit(s: string) returns (w: string)
    ensures AllWhitespace(w) && s == TrimEnd(s) + w
    ensures TrimEnd(s) == [] || !IsWhitespace(TrimEnd(s)[|TrimEnd(s)| - 1])
  {
    if s != [] && IsWhitespace(s[|s| - 1]) {
      var w' := TrimEndSplit(s[..|s| - 1]);
      w := w' + [s[|s| - 1]];
    } else {
      w := [];
    }
  }

  /** Every string is its trimmed value with whitespace around it. */
  lemma TrimSplit(s: string) returns (w1: string, w2: string)
    ensures AllWhitespace(w1) && AllWhitespace(w2) && s == w1 + Trim(s) + w2
    ensures HasNoOuterWhitespace(Trim(s))
  {
    w1 := TrimStartSplit(s);
    var rest := TrimStart(s);
    w2 := TrimEndSplit(rest);
    if Trim(s) != [] {
      assert TrimEnd(rest)[0] == rest[0];
    }
  }

  /** Trimming a stored (already trimmed) username changes nothing. */
  lemma TrimIdempotent(s: string)
    ensures Trim(Trim(s)) == Trim(s)
  {
    var w1, w2 := TrimSplit(s);
    assert Trim(s) == [] + Trim(s) + [];
    TrimCharacterization([], Trim(s), []);
  }

  // ---------------------------------------------------------------------------------------------
  // The `match` validator on `email`: the unanchored regular expression /.+\@.+\..+/.
  // ---------------------------------------------------------------------------------------------

  /** The characters the regular-expression atom `.` does not match. */
  predicate IsLineTerminator(c: char) {
    c == '\n' || c == '\r' || c == '\U{2028}' || c == '\U{2029}'
  }

  /** No line terminator in s[i..j] (which may be empty). */
  ghost predicate NoBreak(s: string, i: int, j: int)
    requires 0 <= i && j <= |s|
  {
    forall k :: i <= k < j ==> !IsLineTerminator(s[k])
  }

  /** s[i..j] is a non-empty run matched by `.+`. */
  ghost predicate Run(s: string, i: int, j: int) {
    0 <= i < j <= |s| && NoBreak(s, i, j)
  }

  /** The whole pattern matches s[i..e], with its `@` at b and its `\.` at c. */
  ghost predicate MatchesAt(s: string, i: int, b: int, c: int, e: int) {
    Run(s, i, b) && b < |s| && s[b] == '@' && Run(s, b + 1, c) && c < |s| && s[c] == '.' && Run(s, c + 1, e)
  }

  /** The regular expression finds a match anywhere in s: it is not anchored at either end. */
  ghost predicate MatchesEmailPattern(s: string) {
    exists i, b, c, e :: MatchesAt(s, i, b, c, e)
  }

  // A backtracking matcher for the same pattern, one function per position in the pattern.

  /** The final `.+`: one matching character is enough, as nothing follows it. */
  predicate TailFrom(s: string, k: nat) {
    k < |s| && !IsLineTerminator(s[k])
  }

  /** Inside the middle `.+`, after its first character: `.*\..+`. */
  predicate MidRest(s: string, k: nat)
    decreases |s| - k
  {
    k < |s| && ((s[k] == '.' && TailFrom(s, k + 1)) || (!IsLineTerminator(s[k]) && MidRest(s, k + 1)))
  }

  /** `.+\..+` starting at k. */
  predicate MidFrom(s: string, k: nat) {
    k < |s| && !IsLineTerminator(s[k]) && MidRest(s, k + 1)
  }

  /** Inside the leading `.+`, after its first character: `.*\@.+\..+`. */
  predicate LeadRest(s: string, k: nat)
    decreases |s| - k
  {
    k < |s| && ((s[k] == '@' && MidFrom(s, k + 1)) || (!IsLineTerminator(s[k]) && LeadRest(s, k + 1)))
  }

  /** The whole pattern starting at k. */
  predicate MatchFrom(s: string, k: nat) {
    k < |s| && !IsLineTerminator(s[k]) && LeadRest(s, k + 1)
  }

  /** A match starting at k or later. */
  predicate SearchFrom(s: string, k: nat)
    decreases |s| - k
  {
    k < |s| && (MatchFrom(s, k) || SearchFrom(s, k + 1))
  }

  /** The email validator: true when the pattern matches somewhere in s. */
  predicate IsEmail(s: string) {
    SearchFrom(s, 0)
  }

  /** `\..+` found at c, after a possibly empty run from k. */
  ghost predicate DotTail(s: string, k: int, c: int, e: int) {
    0 <= k <= c < |s| && NoBreak(s, k, c) && s[c] == '.' && Run(s, c + 1, e)
  }

  /** `.+\..+` matches s[k..e], with its `\.` at c. */
  ghost predicate MidAt(s: string, k: int, c: int, e: int) {
    Run(s, k, c) && c < |s| && s[c] == '.' && Run(s, c + 1, e)
  }

  /** `\@.+\..+` found at b, after a possibly empty run from k. */
  ghost predicate AtMid(s: string, k: int, b: int, c: int, e: int) {
    0 <= k <= b < |s| && NoBreak(s, k, b) && s[b] == '@' && MidAt(s, b + 1, c, e)
  }

  lemma TailFromCorrect(s: string, k: nat)
    ensures TailFrom(s, k) <==> exists e :: Run(s, k, e)
  {
    if TailFrom(s, k) {
      assert Run(s, k, k + 1);
    }
  }

  lemma {:induction false} MidRestCorrect(s: string, k: nat)
    ensures MidRest(s, k) <==> exists c, e :: DotTail(s, k, c, e)
    decreases |s| - k
  {
    if k < |s| {
      MidRestCorrect(s, k + 1);
      TailFromCorrect(s, k + 1);
      if MidRest(s, k) {
        if s[k] == '.' && TailFrom(s, k + 1) {
          assert DotTail(s, k, k, k + 2);
        } else {
          var c, e :| DotTail(s, k + 1, c, e);
          assert DotTail(s, k, c, e);
        }
      }
      if c, e :| DotTail(s, k, c, e) {
        if c == k {
          assert Run(s, k + 1, e);
        } else {
          assert !IsLineTerminator(s[k]);
          assert DotTail(s, k + 1, c, e);
        }
      }
    }
  }

  lemma MidFromCorrect(s: string, k: nat)
    ensures MidFrom(s, k) <==> exists c, e :: MidAt(s, k, c, e)
  {
    MidRestCorrect(s, k + 1);
    if MidFrom(s, k) {
      var c, e :| DotTail(s, k + 1, c, e);
      assert MidAt(s, k, c, e);
    }
    if c, e :| MidAt(s, k, c, e) {
      assert DotTail(s, k + 1, c, e);
    }
  }

  lemma {:induction false} LeadRestCorrect(s: string, k: nat)
    ensures LeadRest(s, k) <==> exists b, c, e :: AtMid(s, k, b, c, e)
    decreases |s| - k
  {
    if k < |s| {
      LeadRestCorrect(s, k + 1);
      MidFromCorrect(s, k + 1);
      if LeadRest(s, k) {
        if s[k] == '@' && MidFrom(s, k + 1) {
          var c, e :| MidAt(s, k + 1, c, e);
          assert AtMid(s, k, k, c, e);
        } else {
          var b, c, e :| AtMid(s, k + 1, b, c, e);
          assert AtMid(s, k, b, c, e);
        }
      }
      if b, c, e :| AtMid(s, k, b, c, e) {
        if b == k {
          assert MidAt(s, k + 1, c, e);
        } else {
          assert !IsLineTerminator(s[k]);
          assert AtMid(s, k + 1, b, c, e);
        }
      }
    }
  }

  lemma MatchFromCorrect(s: string, i: nat)
    ensures MatchFrom(s, i) <==> exists b, c, e :: MatchesAt(s, i, b, c, e)
  {
    LeadRestCorrect(s, i + 1);
    if MatchFrom(s, i) {
      var b, c, e :| AtMid(s, i + 1, b, c, e);
      assert MatchesAt(s, i, b, c, e);
    }
    if b, c, e :| MatchesAt(s, i, b, c, e) {
      assert AtMid(s, i + 1, b, c, e);
    }
  }

  lemma {:induction false} SearchFromCorrect(s: string, k: nat)
    ensures SearchFrom(s, k) <==> exists i, b, c, e :: k <= i && MatchesAt(s, i, b, c, e)
    decreases |s| - k
  {
    if k < |s| {
      SearchFromCorrect(s, k + 1);
      MatchFromCorrect(s, k);
      if i, b, c, e :| k <= i && MatchesAt(s, i, b, c, e) {
        if i == k {
          assert MatchFrom(s, k);
        } else {
          assert SearchFrom(s, k + 1);
        }
      }
    }
  }

  /** The matcher accepts exactly the strings in which the regular expression finds a match. */
  lemma IsEmailCorrect(s: string)
    ensures IsEmail(s) <==> MatchesEmailPattern(s)
  {
    SearchFromCorrect(s, 0);
  }

  /**
   * The pattern is not anchored: text before or after a matching address never makes it fail,
   * so the validator accepts, for instance, an address embedded in a sentence.
   */
  lemma EmailPatternUnanchored(p: string, s: string, q: string)
    requires IsEmail(s)
    ensures IsEmail(p + s + q)
  {
    IsEmailCorrect(s);
    IsEmailCorrect(p + s + q);
    var t := p + s + q;
    var i, b, c, e :| MatchesAt(s, i, b, c, e);
    var n := |p|;
    assert forall k :: 0 <= k < |s| ==> t[n + k] == s[k];
    assert MatchesAt(t, n + i, n + b, n + c, n + e) by {
      forall k | n + i <= k < n + e
        ensures t[k] == s[k - n]
      {
      }
    }
  }

  /** The validator accepts an ordinary address. */
  lemma IsEmailAcceptsAddress()
    ensures IsEmail("neo@x.com")
  {
    var s := "neo@x.com";
    assert MatchesAt(s, 0, 3, 5, 9);
    IsEmailCorrect(s);
  }

  /** Without a `.` after the `@` there is no match. */
  lemma IsEmailRejectsMissingDot()
    ensures !IsEmail("neo@x")
  {
    var s := "neo@x";
    IsEmailCorrect(s);
  }

  // ---------------------------------------------------------------------------------------------
  // Validation before save, and document construction with setters and defaults.
  // ---------------------------------------------------------------------------------------------

  /**
   * A document the schema lets through validation: every `required` string is non-empty (the
   * required validator refuses ""), the username is in its trimmed form, the email matches the
   * pattern, and every message has content. `verifyCodeExpiry` and `createdAt` are integers, so
   * they are always present.
   */
  predicate WellFormed(u: User) {
    && u.username != [] && u.username == Trim(u.username)
    && u.email != [] && IsEmail(u.email)
    && u.password != []
    && u.verifyCode != []
    && forall m :: m in u.messages ==> m.content != []
  }

  /**
   * `new UserModel({...})`: the `trim` setter is applied to the username, and the two flags take
   * their schema defaults (`isVerified` false, `isAcceptingMessages` true) when left unset.
   */
  function MakeUser(id: UserId, username: string, email: string, password: string, verifyCode: string,
                    verifyCodeExpiry: int, isVerified: Option<bool>, isAcceptingMessages: Option<bool>,
                    messages: seq<Message>): User
  {
    User(id, Trim(username), email, password, verifyCode, verifyCodeExpiry,
         isVerified.GetOr(false), isAcceptingMessages.GetOr(true), messages)
  }

  /** A new user is unverified and accepting messages unless told otherwise; the username is stored trimmed. */
  lemma MakeUserDefaults(id: UserId, username: string, email: string, password: string, verifyCode: string,
                         verifyCodeExpiry: int, messages: seq<Message>)
    ensures var u := MakeUser(id, username, email, password, verifyCode, verifyCodeExpiry, None, None, messages);
      && !u.isVerified && u.isAcceptingMessages
      && u.username == Trim(username) && Trim(u.username) == u.username
  {
    TrimIdempotent(username);
  }

  /** The document's `createdAt` default as written: `Date.now()` is evaluated once, when the schema is defined. */
  function MessageAsWritten(content: string, createdAt: Option<int>, schemaDefinedAt: int, now: int): Message {
    Message(content, createdAt.GetOr(schemaDefinedAt))
  }

  /** Two messages built at different instants without an explicit `createdAt` get the same timestamp. */
  lemma MessageDefaultIsFrozen(content: string, schemaDefinedAt: int, t1: int, t2: int)
    requires t1 != t2
    ensures MessageAsWritten(content, None, schemaDefinedAt, t1).createdAt
         == MessageAsWritten(content, None, schemaDefinedAt, t2).createdAt
    ensures MessageAsWritten(content, None, schemaDefinedAt, t1).createdAt != t1
         || MessageAsWritten(content, None, schemaDefinedAt, t2).createdAt != t2
  {
  }

  /** A message sub-document with the evidently intended default: the time it is created. */
  function MakeMessage(content: string, createdAt: Option<int>, now: int): Message {
    Message(content, createdAt.GetOr(now))
  }

  /** With the intended default, an unset `createdAt` is the creation time; a given one is kept. */
  lemma MakeMessageStamps(content: string, createdAt: Option<int>, now: int)
    ensures MakeMessage(content, createdAt, now).content == content
    ensures MakeMessage(content, None, now).createdAt == now
    ensures createdAt.Some? ==> MakeMessage(content, createdAt, now).createdAt == createdAt.value
  {
  }
}
