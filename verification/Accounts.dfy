/**
 What each account request does to one user document: the outcome it reports and the
 primitive writes it issues, in order. Every handler reads the document once, before writing.
 */
module Accounts {
  import opened Prelude
  import opened UserRecord

  const CODE_TTL_MS: int := 10 * 60 * 1000
  const CODE_MAX_ATTEMPTS: nat := 5
  const CODE_RESEND_INTERVAL_MS: int := 60 * 1000
  const REVERT_WINDOW_MS: int := 72 * 60 * 60 * 1000
  const CONFIRMATION_TTL_MS: int := 24 * 60 * 60 * 1000
  const RESET_TTL_MS: int := 24 * 60 * 60 * 1000

  /** `MAX_LOGIN_ATTEMPTS` and `LOCKOUT_DURATION_MINUTES`. */
  datatype Policy = Policy(maxAttempts: int, lockoutMinutes: int) {
    function LockoutMs(): int {
      lockoutMinutes * 60 * 1000
    }

    predicate Sane() {
      maxAttempts >= 1 && lockoutMinutes > 0
    }
  }

  datatype Request =
    | Login(password: string)
    | Unlock
    | RequestCode(code: string)
    | RequestChange(newEmail: Address, proof: string, changeToken: Token)
    | Confirm(confirmToken: Token, freshRevertToken: Token)
    | Revert(revertToken: Token)
    | ForgotPassword(freshResetToken: Token)
    | ResetPassword(resetToken: Token, newPassword: PasswordHash)
    | ChangePassword(currentPassword: string, nextPassword: PasswordHash)
    | LogoutAll

  /**
   One request: the first clock read, the later clock reads, and whether another
   document already holds the address the request wants to take.
   */
  datatype Call = Call(at: Instant, end: Instant, taken: bool, request: Request)

  datatype Reply = LoggedIn | Done | CodeIssued(code: string) | Staged(token: Token) | Reverted | AlreadyReverted

  datatype Plan = Plan(outcome: Result<Reply, DomainError>, writes: seq<Write>)

  function Refused(e: DomainError): Plan {
    Plan(Err(e), [])
  }

  predicate Locked(u: User, now: Instant) {
    u.lockedUntil.Some? && u.lockedUntil.value > now
  }

  function LoginPlan(u: User, policy: Policy, at: Instant, end: Instant, password: string): Plan {
    if Locked(u, at) then Refused(AccountLocked)
    else if !Matches(password, u.password) then
      var failed := u.failedLogins + 1;
      var lock := if failed >= policy.maxAttempts then To(end + policy.LockoutMs()) else Absent;
      Plan(Err(InvalidCredentials), [Update(Patch(failedLogins := To(failed), lockedUntil := lock))])
    else
      var reset := if u.failedLogins > 0 || u.lockedUntil.Some? then [UnlockWrite()] else [];
      Plan(if u.isActive then Ok(LoggedIn) else Err(AccountInactive), reset)
  }

  function UnlockWrite(): Write {
    Update(Patch(failedLogins := To(0), lockedUntil := Null))
  }

  predicate Throttled(u: User, now: Instant) {
    u.codeSentAt.Some? && now - u.codeSentAt.value < CODE_RESEND_INTERVAL_MS
  }

  function RequestCodePlan(id: UserId, u: User, at: Instant, code: string): Plan {
    if Throttled(u, at) then Refused(ValidationError)
    else Plan(Ok(CodeIssued(code)),
              [Update(Patch(codeHash := To(HashEmailChangeCode(code, id)),
                            codeExpires := To(at + CODE_TTL_MS),
                            codeAttempts := To(0),
                            codeSentAt := To(at)))])
  }

  /** Some code can still be compared: stored, unexpired, and with attempts left. */
  predicate CodeLive(u: User, now: Instant) {
    u.codeHash.Some? && u.codeExpires.Some? && u.codeExpires.value >= now && u.codeAttempts < CODE_MAX_ATTEMPTS
  }

  predicate CodeAccepted(id: UserId, u: User, now: Instant, proof: string) {
    CodeLive(u, now) && HashEmailChangeCode(proof, id) == u.codeHash.value
  }

  function ClearCodeWrites(): seq<Write> {
    [Unset({CodeHashField, CodeExpires}), Update(Patch(codeAttempts := To(0)))]
  }

  /** The writes of `assertEmailChangeCode`; it throws unless `CodeAccepted`. */
  function CheckCodeWrites(id: UserId, u: User, now: Instant, proof: string): seq<Write> {
    if !CodeLive(u, now) then (if u.codeHash.Some? then ClearCodeWrites() else [])
    else if !CodeAccepted(id, u, now, proof) && u.codeAttempts + 1 < CODE_MAX_ATTEMPTS then
      [Update(Patch(codeAttempts := To(u.codeAttempts + 1)))]
    else ClearCodeWrites()
  }

  function StageWrite(newEmail: Address, token: Token, end: Instant): Write {
    Update(Patch(pendingEmail := To(newEmail), pendingToken := To(token),
                 pendingExpires := To(end + CONFIRMATION_TTL_MS)))
  }

  function RequestChangePlan(id: UserId, u: User, c: Call): Plan
    requires c.request.RequestChange?
  {
    var r := c.request;
    if u.email == r.newEmail then Refused(ValidationError)
    else
      var checked := CheckCodeWrites(id, u, c.at, r.proof);
      if !CodeAccepted(id, u, c.at, r.proof) then Plan(Err(InvalidEmailChangeCode), checked)
      else if c.taken then Plan(Err(EmailAlreadyExists), checked)
      else Plan(Ok(Staged(r.changeToken)), checked + [StageWrite(r.newEmail, r.changeToken, c.end)])
  }

  function ConfirmWrites(u: User, newEmail: Address, revertToken: Token, end: Instant): seq<Write> {
    [ Update(Patch(email := To(newEmail), previousEmail := To(u.email),
                   revertToken := To(revertToken), revertExpires := To(end + REVERT_WINDOW_MS))),
      Unset({PendingEmail, PendingToken, PendingExpires}),
      BumpEpoch ]
  }

  /** The repository query: the token is stored and its expiry is strictly ahead. */
  predicate FoundByPendingToken(u: User, token: Token, now: Instant) {
    u.pendingToken == Some(token) && u.pendingExpires.Some? && u.pendingExpires.value > now
  }

  function ConfirmPlan(u: User, c: Call): Plan
    requires c.request.Confirm?
  {
    if !FoundByPendingToken(u, c.request.confirmToken, c.at) || u.pendingExpires.value < c.end then
      Refused(ExpiredConfirmationToken)
    else if u.pendingEmail.None? then Refused(NoPendingEmailChange)
    else if c.taken then Refused(DuplicateKey)
    else Plan(Ok(Done), ConfirmWrites(u, u.pendingEmail.value, c.request.freshRevertToken, c.end))
  }

  function RevertWrites(restored: Address): seq<Write> {
    [ Update(Patch(email := To(restored))),
      Unset({PreviousEmail, PendingEmail, PendingToken, PendingExpires}),
      BumpEpoch ]
  }

  function RevertPlan(u: User, c: Call): Plan
    requires c.request.Revert?
  {
    if u.revertToken != Some(c.request.revertToken) then Refused(InvalidToken)
    else if u.previousEmail.None? then Plan(Ok(AlreadyReverted), [])
    else if u.revertExpires.None? || u.revertExpires.value < c.at then Refused(EmailRevertWindowExpired)
    else if c.taken then Refused(DuplicateKey)
    else Plan(Ok(Reverted), RevertWrites(u.previousEmail.value))
  }

  function ResetWrites(newPassword: PasswordHash): seq<Write> {
    [ Update(Patch(password := To(newPassword), resetToken := Undefined, resetExpires := Undefined)), BumpEpoch ]
  }

  predicate FoundByResetToken(u: User, token: Token, now: Instant) {
    u.resetToken == Some(token) && u.resetExpires.Some? && u.resetExpires.value > now
  }

  function ResetPlan(u: User, c: Call): Plan
    requires c.request.ResetPassword?
  {
    if !FoundByResetToken(u, c.request.resetToken, c.at) || u.resetExpires.value < c.end then Refused(ExpiredResetToken)
    else Plan(Ok(Done), ResetWrites(c.request.newPassword))
  }

  function ChangePasswordWrites(next: PasswordHash): seq<Write> {
    [ Update(Patch(password := To(next))), BumpEpoch ]
  }

  function ForgotWrite(token: Token, end: Instant): Write {
    Update(Patch(resetToken := To(token), resetExpires := To(end + RESET_TTL_MS)))
  }

  /** The plan of any request against the document `u` of user `id`. */
  function Handle(id: UserId, policy: Policy, u: User, c: Call): Plan {
    match c.request
    case Login(password) => LoginPlan(u, policy, c.at, c.end, password)
    case Unlock => Plan(Ok(Done), [UnlockWrite()])
    case RequestCode(code) => RequestCodePlan(id, u, c.at, code)
    case RequestChange(_, _, _) => RequestChangePlan(id, u, c)
    case Confirm(_, _) => ConfirmPlan(u, c)
    case Revert(_) => RevertPlan(u, c)
    case ForgotPassword(token) => Plan(Ok(Done), [ForgotWrite(token, c.end)])
    case ResetPassword(_, _) => ResetPlan(u, c)
    case ChangePassword(current, next) =>
      if Matches(current, u.password) then Plan(Ok(Done), ChangePasswordWrites(next))
      else Refused(CurrentPasswordIncorrect)
    case LogoutAll => Plan(Ok(Done), [BumpEpoch])
  }
}
