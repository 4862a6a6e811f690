/** Lockouts, reset tokens and passwords over whole runs: what locks, redeems and opens an account, and for how long. */
module PasswordRuns {
  import opened Prelude
  import opened UserRecord
  import opened Accounts
  import opened AccountRuns
  import LoginGuessing

  // ---- the lock ------------------------------------------------------------------------------

  /** Request `i` is a wrong guess that reaches the maximum, and nobody unlocks the account before `j`. */
  predicate LocksUntil(h: History, i: nat, j: nat)
    requires i < j <= |h.calls|
  {
    && LoginGuessing.WrongGuess(h.At(i), h.calls[i]) && h.At(i).failedLogins + 1 >= h.policy.maxAttempts
    && forall k :: i < k < j ==> !h.calls[k].request.Unlock?
  }

  lemma LockBegins(h: History, i: nat)
    requires i < |h.calls| && LocksUntil(h, i, i + 1)
    ensures h.At(i + 1).lockedUntil == Some(h.calls[i].end + h.policy.LockoutMs())
  {
    LoginGuessing.GuessCounts(h.id, h.policy, h.At(i), h.calls[i]);
  }

  lemma LockStep(h: History, k: nat)
    requires k < |h.calls| && Locked(h.At(k), h.calls[k].at) && !h.calls[k].request.Unlock?
    ensures h.At(k + 1).lockedUntil == h.At(k).lockedUntil
  {
    LoginGuessing.LockFrame(h.id, h.policy, h.At(k), h.calls[k]);
  }

  lemma {:induction false} LockStays(h: History, i: nat, j: nat)
    requires h.Timely() && i < j <= |h.calls| && LocksUntil(h, i, j)
    requires j - 1 > i ==> h.calls[j - 1].at < h.calls[i].end + h.policy.LockoutMs()
    ensures h.At(j).lockedUntil == Some(h.calls[i].end + h.policy.LockoutMs())
    decreases j
  {
    hide LoginGuessing.WrongGuess, History.At, Policy.LockoutMs;
    if j == i + 1 {
      LockBegins(h, i);
    } else {
      var k := j - 1;
      assert k - 1 > i ==> h.calls[k - 1].at <= h.calls[k - 1].end <= h.calls[k].at;
      LockStays(h, i, k);
      LockStep(h, k);
    }
  }

  /** A lockout holds for its whole duration: every login in it is refused unheard and changes nothing. */
  lemma LockHolds(h: History, i: nat, j: nat)
    requires h.Timely() && i < j < |h.calls| && LocksUntil(h, i, j) && h.calls[j].request.Login?
    requires h.calls[j].at < h.calls[i].end + h.policy.lockoutMinutes * 60 * 1000
    ensures h.OutcomeOf(j) == Err(AccountLocked) && h.At(j + 1) == h.At(j)
  {
    assert j - 1 > i ==> h.calls[j - 1].at <= h.calls[j - 1].end <= h.calls[j].at;
    LockStays(h, i, j);
  }

  /**
   And no longer: once the duration is over, the first login attempt is heard, and the right password
   opens an active account.
   */
  lemma LockEnds(h: History, i: nat, j: nat)
    requires h.Timely() && i < j < |h.calls| && LocksUntil(h, i, j) && h.calls[j].request.Login?
    requires forall k :: i < k < j && h.calls[k].request.Login? ==>
                           h.calls[k].at < h.calls[i].end + h.policy.LockoutMs()
    requires h.calls[j].at >= h.calls[i].end + h.policy.lockoutMinutes * 60 * 1000
    ensures h.OutcomeOf(j)
            == if !Matches(h.calls[j].request.password, LatestPassword(h, j)) then Err(InvalidCredentials)
               else if !h.start.isActive then Err(AccountInactive)
               else Ok(LoggedIn)
  {
    LockKeptByOthers(h, i, j);
    PasswordIsLatest(h, j);
    ActivationStays(h, j);
  }

  lemma {:induction false} LockKeptByOthers(h: History, i: nat, j: nat)
    requires i < j <= |h.calls| && LocksUntil(h, i, j)
    requires forall k :: i < k < j && h.calls[k].request.Login? ==>
                           h.calls[k].at < h.calls[i].end + h.policy.LockoutMs()
    ensures h.At(j).lockedUntil == Some(h.calls[i].end + h.policy.LockoutMs())
    decreases j
  {
    hide LoginGuessing.WrongGuess, History.At, Policy.LockoutMs;
    if j == i + 1 {
      LockBegins(h, i);
    } else {
      LockKeptByOthers(h, i, j - 1);
      LockStepOther(h, j - 1);
    }
  }

  lemma LockStepOther(h: History, k: nat)
    requires k < |h.calls| && !h.calls[k].request.Unlock?
    requires h.calls[k].request.Login? ==> Locked(h.At(k), h.calls[k].at)
    ensures h.At(k + 1).lockedUntil == h.At(k).lockedUntil
  {
    LoginGuessing.LockFrame(h.id, h.policy, h.At(k), h.calls[k]);
  }

  // ---- unlock and revoke-all --------------------------------------------------------------------------

  /** An unlock always succeeds, forgets failures and lock, and touches nothing else. */
  lemma UnlockForgets(h: History, i: nat)
    requires i < |h.calls| && h.calls[i].request.Unlock?
    ensures h.OutcomeOf(i) == Ok(Done) && h.At(i + 1) == h.At(i).(failedLogins := 0, lockedUntil := None)
  {
    StepUnrolled(h.id, h.policy, h.At(i), h.calls[i]);
  }

  /** A revoke-all always succeeds, raises the epoch by exactly one, and touches nothing else. */
  lemma LogoutAllRaises(h: History, i: nat)
    requires i < |h.calls| && h.calls[i].request.LogoutAll?
    ensures h.OutcomeOf(i) == Ok(Done) && h.At(i + 1) == h.At(i).(sessionEpoch := h.At(i).sessionEpoch + 1)
  {
    StepUnrolled(h.id, h.policy, h.At(i), h.calls[i]);
  }

  /** Wrong guesses among the requests `i..k`. */
  function WrongGuesses(h: History, i: nat, k: nat): nat
    requires i <= k <= |h.calls|
  {
    if i == k then 0
    else WrongGuesses(h, i, k - 1) + if LoginGuessing.WrongGuess(h.At(k - 1), h.calls[k - 1]) then 1 else 0
  }

  lemma FailuresMove(h: History, k: nat)
    requires k < |h.calls|
    ensures h.At(k + 1).failedLogins
            <= h.At(k).failedLogins + if LoginGuessing.WrongGuess(h.At(k), h.calls[k]) then 1 else 0
  {
    var u, c := h.At(k), h.calls[k];
    if LoginGuessing.WrongGuess(u, c) {
      LoginGuessing.GuessCounts(h.id, h.policy, u, c);
    } else if c.request.Unlock? || LoginGuessing.Compares(u, c) {
      StepUnrolled(h.id, h.policy, u, c);
    } else {
      LoginGuessing.LockFrame(h.id, h.policy, u, c);
    }
  }

  lemma {:induction false} FailuresSince(h: History, i: nat, k: nat)
    requires i <= k <= |h.calls|
    ensures h.At(k).failedLogins <= h.At(i).failedLogins + WrongGuesses(h, i, k)
    decreases k - i
  {
    hide LoginGuessing.WrongGuess, History.At;
    if i < k {
      FailuresSince(h, i, k - 1);
      FailuresMove(h, k - 1);
    }
  }

  /**
   After an unlock, until the maximum of wrong guesses is reached again, every login is heard: the
   latest password opens an active account.
   */
  lemma UnlockOpens(h: History, i: nat, j: nat)
    requires h.policy.Sane() && RecordOk(h.start, h.policy) && i < j < |h.calls|
    requires h.calls[i].request.Unlock? && h.calls[j].request.Login?
    requires WrongGuesses(h, i + 1, j) < h.policy.maxAttempts
    ensures h.OutcomeOf(j)
            == if !Matches(h.calls[j].request.password, LatestPassword(h, j)) then Err(InvalidCredentials)
               else if !h.start.isActive then Err(AccountInactive)
               else Ok(LoggedIn)
  {
    UnlockForgets(h, i);
    FailuresSince(h, i + 1, j);
    RunKeepsRecord(h, j);
    LoginNeedsLatestPassword(h, j);
  }

  // ---- reset tokens ----------------------------------------------------------------------------

  /** The request issues a reset token or effectively redeems one. */
  predicate TouchesReset(h: History, k: nat)
    requires k < |h.calls|
  {
    h.calls[k].request.ForgotPassword? || (h.calls[k].request.ResetPassword? && h.OutcomeOf(k).Ok?)
  }

  lemma ResetFrame(h: History, k: nat)
    requires k < |h.calls| && !TouchesReset(h, k)
    ensures SameOn(h.At(k), h.At(k + 1), ResetFields)
  {
    LeftAlone(h.At(k), Handle(h.id, h.policy, h.At(k), h.calls[k]).writes, ResetFields);
  }

  lemma {:induction false} ResetStays(h: History, i: nat, j: nat)
    requires i <= j <= |h.calls| && forall k :: i <= k < j ==> !TouchesReset(h, k)
    ensures SameOn(h.At(i), h.At(j), ResetFields)
    decreases j - i
  {
    hide TouchesReset, History.At;
    if i < j {
      ResetStays(h, i, j - 1);
      ResetFrame(h, j - 1);
    }
  }

  lemma ForgotEffect(h: History, k: nat)
    requires k < |h.calls| && h.calls[k].request.ForgotPassword?
    ensures h.At(k + 1).resetToken == Some(h.calls[k].request.freshResetToken)
    ensures h.At(k + 1).resetExpires == Some(h.calls[k].end + RESET_TTL_MS)
  {
    StepUnrolled(h.id, h.policy, h.At(k), h.calls[k]);
  }

  lemma RefusedResetKeeps(h: History, k: nat)
    requires k < |h.calls| && h.calls[k].request.ResetPassword? && h.OutcomeOf(k).Err?
    ensures h.OutcomeOf(k) == Err(ExpiredResetToken) && h.At(k + 1) == h.At(k)
  {
    StepUnrolled(h.id, h.policy, h.At(k), h.calls[k]);
  }

  lemma RedeemEffect(h: History, k: nat)
    requires k < |h.calls| && h.calls[k].request.ResetPassword? && h.OutcomeOf(k).Ok?
    ensures var u, v := h.At(k), h.At(k + 1);
            v == u.(password := h.calls[k].request.newPassword, resetToken := None, resetExpires := None,
                    sessionEpoch := u.sessionEpoch + 1)
  {
    StepUnrolled(h.id, h.policy, h.At(k), h.calls[k]);
  }

  /**
   The token of a forgot-password request, with no newer one and no effective reset since, resets
   the password exactly within 24 hours. It then installs the new password, disappears, and
   closes every session by raising the epoch once.
   */
  lemma ResetRedeemsToken(h: History, i: nat, j: nat)
    requires i < j < |h.calls| && h.calls[i].request.ForgotPassword? && h.calls[j].request.ResetPassword?
    requires h.calls[j].request.resetToken == h.calls[i].request.freshResetToken
    requires forall k :: i < k < j ==> !TouchesReset(h, k)
    ensures h.OutcomeOf(j).Ok?
            <==> var deadline := h.calls[i].end + 24 * 60 * 60 * 1000;
                 h.calls[j].at < deadline && h.calls[j].end <= deadline
    ensures h.OutcomeOf(j).Err? ==> h.OutcomeOf(j) == Err(ExpiredResetToken) && h.At(j + 1) == h.At(j)
    ensures h.OutcomeOf(j).Ok? ==>
              && h.At(j + 1).password == h.calls[j].request.newPassword
              && h.At(j + 1).resetToken.None? && h.At(j + 1).sessionEpoch == h.At(j).sessionEpoch + 1
  {
    hide History.At, Step;
    ForgotEffect(h, i);
    ResetStays(h, i + 1, j);
    if h.OutcomeOf(j).Ok? {
      RedeemEffect(h, j);
    } else {
      RefusedResetKeeps(h, j);
    }
  }

  /** After an effective reset no token resets anything until a new one is issued. */
  lemma ResetSpendsToken(h: History, j: nat, k: nat)
    requires j < k < |h.calls| && h.calls[j].request.ResetPassword? && h.OutcomeOf(j).Ok?
    requires h.calls[k].request.ResetPassword? && forall m :: j < m < k ==> !h.calls[m].request.ForgotPassword?
    ensures h.OutcomeOf(k) == Err(ExpiredResetToken)
  {
    NoTokenStays(h, j, k);
  }

  lemma {:induction false} NoTokenStays(h: History, j: nat, k: nat)
    requires j < k <= |h.calls| && h.calls[j].request.ResetPassword? && h.OutcomeOf(j).Ok?
    requires forall m :: j < m < k ==> !h.calls[m].request.ForgotPassword?
    ensures h.At(k).resetToken.None?
    decreases k
  {
    if TouchesReset(h, k - 1) {
      RedeemEffect(h, k - 1);
    } else {
      NoTokenStays(h, j, k - 1);
      ResetFrame(h, k - 1);
    }
  }

  // ---- which password opens the account ------------------------------------------------------------

  /** The password the request installs, if it does. */
  function Installed(h: History, k: nat): Option<PasswordHash>
    requires k < |h.calls|
  {
    if h.OutcomeOf(k).Err? then None
    else
      match h.calls[k].request
      case ResetPassword(_, next) => Some(next)
      case ChangePassword(_, next) => Some(next)
      case _ => None
  }

  function LatestPassword(h: History, k: nat): PasswordHash
    requires k <= |h.calls|
  {
    if k == 0 then h.start.password
    else if Installed(h, k - 1).Some? then Installed(h, k - 1).value
    else LatestPassword(h, k - 1)
  }

  lemma PasswordStep(h: History, k: nat)
    requires k < |h.calls|
    ensures h.At(k + 1).password == if Installed(h, k).Some? then Installed(h, k).value else h.At(k).password
  {
    var u, c := h.At(k), h.calls[k];
    if Installed(h, k).Some? {
      StepUnrolled(h.id, h.policy, u, c);
    } else {
      LeftAlone(u, Handle(h.id, h.policy, u, c).writes, PasswordField);
    }
  }

  lemma {:induction false} PasswordIsLatest(h: History, k: nat)
    requires k <= |h.calls|
    ensures h.At(k).password == LatestPassword(h, k)
  {
    if k > 0 {
      PasswordIsLatest(h, k - 1);
      PasswordStep(h, k - 1);
    }
  }

  lemma {:induction false} WritesKeepActivation(u: User, ws: seq<Write>)
    ensures ApplyAll(u, ws).isActive == u.isActive
    decreases |ws|
  {
    if ws != [] {
      WritesKeepActivation(ApplyWrite(u, ws[0]), ws[1..]);
    }
  }

  lemma {:induction false} ActivationStays(h: History, k: nat)
    requires k <= |h.calls|
    ensures h.At(k).isActive == h.start.isActive
  {
    if k > 0 {
      ActivationStays(h, k - 1);
      WritesKeepActivation(h.At(k - 1), Handle(h.id, h.policy, h.At(k - 1), h.calls[k - 1]).writes);
    }
  }

  /**
   What a login answers: locked first, then a password that is not the one the latest effective reset
   or change installed, then an inactive account. Otherwise it succeeds, exactly then, and a right
   password leaves no failures behind.
   */
  lemma LoginNeedsLatestPassword(h: History, k: nat)
    requires h.policy.Sane() && RecordOk(h.start, h.policy) && k < |h.calls| && h.calls[k].request.Login?
    ensures h.OutcomeOf(k)
            == if h.At(k).lockedUntil.Some? && h.At(k).lockedUntil.value > h.calls[k].at then Err(AccountLocked)
               else if !Matches(h.calls[k].request.password, LatestPassword(h, k)) then Err(InvalidCredentials)
               else if !h.start.isActive then Err(AccountInactive)
               else Ok(LoggedIn)
    ensures h.OutcomeOf(k) in [Ok(LoggedIn), Err(AccountInactive)] ==>
              h.At(k + 1) == h.At(k).(failedLogins := 0, lockedUntil := None)
  {
    PasswordIsLatest(h, k);
    ActivationStays(h, k);
    RunKeepsRecord(h, k);
    StepUnrolled(h.id, h.policy, h.At(k), h.calls[k]);
  }
}
