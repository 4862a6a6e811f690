/**
 The user document and the three primitive writes the repository applies to it:
 `update` (with its two treatments of `undefined`), `unsetFields` and `bumpSessionEpoch`.
 */
module UserRecord {
  import opened Prelude

  type UserId = string
  type Token = string

  /** A syntactically valid address; the HTTP layer refuses the empty string. */
  type Address = s: string | s != "" witness "a"

  /** bcrypt as its contract: a hash matches exactly the password it was made from. */
  datatype PasswordHash = Bcrypt(password: string, salt: string)

  predicate Matches(password: string, hash: PasswordHash) {
    hash.password == password
  }

  /** sha256 as an injective constructor over the salted text. */
  datatype CodeHash = Sha256(salted: string)

  function HashEmailChangeCode(code: string, id: UserId): CodeHash {
    Sha256(id + ":" + code)
  }

  lemma HashIsInjective(a: string, b: string, id: UserId)
    requires HashEmailChangeCode(a, id) == HashEmailChangeCode(b, id)
    ensures a == b
  {
    var prefix := id + ":";
    assert a == (prefix + a)[|prefix|..] && b == (prefix + b)[|prefix|..];
  }

  datatype User = User(
    email: Address,
    password: PasswordHash,
    isActive: bool,
    sessionEpoch: nat,
    failedLogins: nat,
    lockedUntil: Option<Instant>,
    resetToken: Option<Token>,
    resetExpires: Option<Instant>,
    pendingEmail: Option<Address>,
    pendingToken: Option<Token>,
    pendingExpires: Option<Instant>,
    codeHash: Option<CodeHash>,
    codeExpires: Option<Instant>,
    codeAttempts: nat,
    codeSentAt: Option<Instant>,
    previousEmail: Option<Address>,
    revertToken: Option<Token>,
    revertExpires: Option<Instant>)

  /** The fields a handler removes with `$unset`. */
  datatype Field = PendingEmail | PendingToken | PendingExpires | CodeHashField | CodeExpires | PreviousEmail

  /** One property of a `Partial<User>`: not mentioned, `undefined`, `null`, or a value. */
  datatype Change<T> = Absent | Undefined | Null | To(value: T)

  datatype Patch = Patch(
    email: Change<Address> := Absent,
    password: Change<PasswordHash> := Absent,
    failedLogins: Change<nat> := Absent,
    lockedUntil: Change<Instant> := Absent,
    resetToken: Change<Token> := Absent,
    resetExpires: Change<Instant> := Absent,
    pendingEmail: Change<Address> := Absent,
    pendingToken: Change<Token> := Absent,
    pendingExpires: Change<Instant> := Absent,
    codeHash: Change<CodeHash> := Absent,
    codeExpires: Change<Instant> := Absent,
    codeAttempts: Change<nat> := Absent,
    codeSentAt: Change<Instant> := Absent,
    previousEmail: Change<Address> := Absent,
    revertToken: Change<Token> := Absent,
    revertExpires: Change<Instant> := Absent)

  datatype Write = Update(patch: Patch) | Unset(fields: set<Field>) | BumpEpoch

  /**
   An optional field after a change. `saving` is the document-save path, where `undefined`
   removes the field; the query path drops `undefined` entries, so the field stays.
   */
  function Assign<T>(old_: Option<T>, change: Change<T>, saving: bool): Option<T> {
    match change
    case Absent => old_
    case Undefined => if saving then None else old_
    case Null => None
    case To(v) => Some(v)
  }

  function AssignRequired<T>(old_: T, change: Change<T>): T {
    if change.To? then change.value else old_
  }

  /** A patch that carries a password goes through `save()`, every other one through a query. */
  function ApplyPatch(u: User, p: Patch): User {
    var saving := p.password.To?;
    User(
      AssignRequired(u.email, p.email),
      AssignRequired(u.password, p.password),
      u.isActive,
      u.sessionEpoch,
      AssignRequired(u.failedLogins, p.failedLogins),
      Assign(u.lockedUntil, p.lockedUntil, saving),
      Assign(u.resetToken, p.resetToken, saving),
      Assign(u.resetExpires, p.resetExpires, saving),
      Assign(u.pendingEmail, p.pendingEmail, saving),
      Assign(u.pendingToken, p.pendingToken, saving),
      Assign(u.pendingExpires, p.pendingExpires, saving),
      Assign(u.codeHash, p.codeHash, saving),
      Assign(u.codeExpires, p.codeExpires, saving),
      AssignRequired(u.codeAttempts, p.codeAttempts),
      Assign(u.codeSentAt, p.codeSentAt, saving),
      Assign(u.previousEmail, p.previousEmail, saving),
      Assign(u.revertToken, p.revertToken, saving),
      Assign(u.revertExpires, p.revertExpires, saving))
  }

  function Drop<T>(old_: Option<T>, f: Field, fields: set<Field>): Option<T> {
    if f in fields then None else old_
  }

  function ApplyUnset(u: User, fields: set<Field>): User {
    u.(pendingEmail := Drop(u.pendingEmail, PendingEmail, fields),
       pendingToken := Drop(u.pendingToken, PendingToken, fields),
       pendingExpires := Drop(u.pendingExpires, PendingExpires, fields),
       codeHash := Drop(u.codeHash, CodeHashField, fields),
       codeExpires := Drop(u.codeExpires, CodeExpires, fields),
       previousEmail := Drop(u.previousEmail, PreviousEmail, fields))
  }

  function ApplyWrite(u: User, w: Write): User {
    match w
    case Update(p) => ApplyPatch(u, p)
    case Unset(fs) => ApplyUnset(u, fs)
    case BumpEpoch => u.(sessionEpoch := u.sessionEpoch + 1)
  }

  function ApplyAll(u: User, ws: seq<Write>): User
    decreases |ws|
  {
    if ws == [] then u else ApplyAll(ApplyWrite(u, ws[0]), ws[1..])
  }
}
