/** How many passwords a run of logins can try: the counter survives the lock, so each later failure relocks. */
module LoginGuessing {
  import opened Prelude
  import opened UserRecord
  import opened Accounts
  import opened AccountRuns

  /** The request compares a password through `login`. */
  predicate Compares(u: User, c: Call) {
    c.request.Login? && !Locked(u, c.at)
  }

  predicate WrongGuess(u: User, c: Call) {
    Compares(u, c) && !Matches(c.request.password, u.password)
  }

  /** Nothing in `i..j` resets the counter: no unlock and no comparison that succeeds. */
  predicate NoReset(h: History, i: nat, j: nat)
    requires i <= j <= |h.calls|
  {
    forall k :: i <= k < j ==>
                  && !h.calls[k].request.Unlock?
                  && (Compares(h.At(k), h.calls[k]) ==> WrongGuess(h.At(k), h.calls[k]))
  }

  /** Password comparisons made by the requests `i..j`. */
  function Comparisons(h: History, i: nat, j: nat): nat
    requires i <= j <= |h.calls|
    decreases j - i
  {
    if i == j then 0
    else (if Compares(h.At(i), h.calls[i]) then 1 else 0) + Comparisons(h, i + 1, j)
  }

  // ---- what one request does to the lockout fields ----------------------------------------

  lemma LockFrame(id: UserId, policy: Policy, u: User, c: Call)
    requires !c.request.Unlock? && !Compares(u, c)
    ensures Step(id, policy, u, c).failedLogins == u.failedLogins
    ensures Step(id, policy, u, c).lockedUntil == u.lockedUntil
  {
    LeftAlone(u, Handle(id, policy, u, c).writes, LockFields);
  }

  lemma GuessCounts(id: UserId, policy: Policy, u: User, c: Call)
    requires WrongGuess(u, c)
    ensures var v := Step(id, policy, u, c);
            && v.failedLogins == u.failedLogins + 1
            && v.lockedUntil == if v.failedLogins >= policy.maxAttempts then Some(c.end + policy.LockoutMs())
                                else u.lockedUntil
  {
    StepUnrolled(id, policy, u, c);
  }

  // ---- the bound ---------------------------------------------------------------------------

  function Max(a: int, b: int): int {
    if a < b then b else a
  }

  /** The comparisons still possible from document `u` between `a` and `b`. */
  function Budget(u: User, policy: Policy, a: Instant, b: Instant): int
    requires policy.Sane()
  {
    var L := policy.LockoutMs();
    if a > b then 0
    else if u.failedLogins < policy.maxAttempts then (policy.maxAttempts - u.failedLogins) + (b - a) / L
    else
      var free := if u.lockedUntil.Some? then Max(a, u.lockedUntil.value) else a;
      if free > b then 0 else 1 + (b - free) / L
  }

  lemma Cancel(d: int, a: int, b: int)
    requires d > 0 && d * a < d * b
    ensures a < b
  {
  }

  lemma DivMonotone(x: int, y: int, d: int)
    requires d > 0 && x <= y
    ensures x / d <= y / d
  {
    assert d * (x / d) < d * (y / d + 1);
    Cancel(d, x / d, y / d + 1);
  }

  lemma DivUnique(x: int, d: int, q: int)
    requires d > 0 && d * q <= x < d * q + d
    ensures x / d == q
  {
    assert d * (q + 1) == d * q + d && d * (x / d + 1) == d * (x / d) + d;
    Cancel(d, x / d, q + 1);
    Cancel(d, q, x / d + 1);
  }

  lemma DivStep(x: int, d: int)
    requires d > 0
    ensures (x - d) / d == x / d - 1
  {
    var q := x / d;
    assert d * (q - 1) == d * q - d;
    DivUnique(x - d, d, q - 1);
  }

  /** A wrong guess spends at least one comparison of the budget. */
  lemma GuessSpendsBudget(id: UserId, policy: Policy, u: User, c: Call, a: Instant, b: Instant)
    requires policy.Sane() && WrongGuess(u, c) && a <= c.at <= c.end <= b
    requires LockOk(u, policy)
    ensures 1 + Budget(Step(id, policy, u, c), policy, c.end, b) <= Budget(u, policy, a, b)
  {
    GuessCounts(id, policy, u, c);
    var L := policy.LockoutMs();
    assert L > 0;
    DivMonotone(b - c.end, b - a, L);
    DivStep(b - c.end, L);
    if 0 <= b - c.end { DivMonotone(0, b - c.end, L); }
    if u.failedLogins >= policy.maxAttempts {
      DivMonotone(b - c.end, b - Max(a, u.lockedUntil.value), L);
    }
  }

  lemma BudgetShrinks(u: User, v: User, policy: Policy, a: Instant, a': Instant, b: Instant)
    requires policy.Sane() && a <= a' <= b
    requires u.failedLogins == v.failedLogins && u.lockedUntil == v.lockedUntil
    ensures 0 <= Budget(v, policy, a', b) <= Budget(u, policy, a, b)
  {
    var L := policy.LockoutMs();
    DivMonotone(b - a', b - a, L);
    DivMonotone(0, b - a', L);
    if u.lockedUntil.Some? {
      var free, free' := Max(a, u.lockedUntil.value), Max(a', u.lockedUntil.value);
      if free' <= b {
        DivMonotone(b - free', b - free, L);
        DivMonotone(0, b - free', L);
      } else if free <= b {
        DivMonotone(0, b - free, L);
      }
    }
  }

  lemma {:induction false} ComparisonsFitBudget(h: History, i: nat, j: nat, a: Instant, b: Instant)
    requires h.policy.Sane() && RecordOk(h.start, h.policy) && h.Timely()
    requires i <= j <= |h.calls| && h.Within(i, j, a, b) && a <= b && NoReset(h, i, j)
    ensures Comparisons(h, i, j) <= Budget(h.At(i), h.policy, a, b)
    decreases j - i
  {
    var u := h.At(i);
    BudgetShrinks(u, u, h.policy, a, a, b);
    if i < j {
      var c := h.calls[i];
      RunKeepsRecord(h, i);
      ComparisonsFitBudget(h, i + 1, j, c.end, b);
      if Compares(u, c) {
        GuessSpendsBudget(h.id, h.policy, u, c, a, b);
      } else {
        LockFrame(h.id, h.policy, u, c);
        BudgetShrinks(u, h.At(i + 1), h.policy, a, c.end, b);
      }
    }
  }

  /**
   Over any stretch of any run, of any length `T`, in which no comparison succeeds and nobody
   unlocks the account, `login` compares at most `maxAttempts + floor(T / lockout)` passwords.
   */
  lemma GuessesAreBounded(h: History, i: nat, j: nat, from: Instant, T: nat)
    requires h.policy.Sane() && RecordOk(h.start, h.policy) && h.Timely()
    requires i <= j <= |h.calls| && h.Within(i, j, from, from + T) && NoReset(h, i, j)
    ensures Comparisons(h, i, j) <= h.policy.maxAttempts + T / h.policy.LockoutMs()
  {
    ComparisonsFitBudget(h, i, j, from, from + T);
    RunKeepsRecord(h, i);
    var u, L := h.At(i), h.policy.LockoutMs();
    if u.failedLogins >= h.policy.maxAttempts {
      DivMonotone(from + T - Max(from, u.lockedUntil.value), T, L);
      DivMonotone(0, T, L);
    }
  }

  // ---- the other place passwords are compared ------------------------------------------------

  /** `changePassword` compares whatever the lock says, and its answer reveals the result; the lock never moves. */
  lemma ChangePasswordIgnoresLock(id: UserId, policy: Policy, u: User, c: Call)
    requires c.request.ChangePassword?
    ensures Handle(id, policy, u, c).outcome
            == if Matches(c.request.currentPassword, u.password) then Ok(Done) else Err(CurrentPasswordIncorrect)
    ensures SameOn(u, Step(id, policy, u, c), LockFields)
  {
    LeftAlone(u, Handle(id, policy, u, c).writes, LockFields);
  }

  /** Password comparisons of the requests `i..j`, by login or by a password change. */
  function AllComparisons(h: History, i: nat, j: nat): nat
    requires i <= j <= |h.calls|
    decreases j - i
  {
    if i == j then 0
    else (if Compares(h.At(i), h.calls[i]) || h.calls[i].request.ChangePassword? then 1 else 0)
         + AllComparisons(h, i + 1, j)
  }

  function PasswordChanges(calls: seq<Call>): nat {
    if calls == [] then 0 else (if calls[0].request.ChangePassword? then 1 else 0) + PasswordChanges(calls[1..])
  }

  lemma {:induction false} ComparisonsAddUp(h: History, i: nat, j: nat)
    requires i <= j <= |h.calls|
    ensures AllComparisons(h, i, j) == Comparisons(h, i, j) + PasswordChanges(h.calls[i..j])
    decreases j - i
  {
    if i < j {
      ComparisonsAddUp(h, i + 1, j);
      assert h.calls[i..j][1..] == h.calls[i + 1..j];
    }
  }

  /** All comparisons together are bounded by login's bound and the number of password-change requests. */
  lemma AllGuessesAreBounded(h: History, i: nat, j: nat, from: Instant, T: nat)
    requires h.policy.Sane() && RecordOk(h.start, h.policy) && h.Timely()
    requires i <= j <= |h.calls| && h.Within(i, j, from, from + T) && NoReset(h, i, j)
    ensures AllComparisons(h, i, j)
            <= h.policy.maxAttempts + T / h.policy.LockoutMs() + PasswordChanges(h.calls[i..j])
  {
    ComparisonsAddUp(h, i, j);
    GuessesAreBounded(h, i, j, from, T);
  }

  function Attempts(n: nat, guess: string): seq<Call> {
    seq(n, _ => Call(0, 0, false, ChangePassword(guess, Bcrypt("new", "salt"))))
  }

  /** Nothing but their number bounds the latter: any number of wrong guesses is compared at once, locked or not. */
  lemma {:induction false} ChangePasswordIsUnbounded(id: UserId, policy: Policy, u: User, guess: string, n: nat)
    requires !Matches(guess, u.password)
    ensures var h := History(id, policy, u, Attempts(n, guess));
            && h.Timely() && h.Within(0, n, 0, 0) && AllComparisons(h, 0, n) == n && h.At(n) == u
  {
    var h := History(id, policy, u, Attempts(n, guess));
    forall k | 0 <= k <= n ensures h.At(k) == u {
      WrongChangesWriteNothing(h, k, guess, n);
    }
    AttemptsAllCompare(h, 0, n);
  }

  lemma {:induction false} WrongChangesWriteNothing(h: History, k: nat, guess: string, n: nat)
    requires k <= n && h.calls == Attempts(n, guess) && !Matches(guess, h.start.password)
    ensures h.At(k) == h.start
  {
    if k > 0 {
      WrongChangesWriteNothing(h, k - 1, guess, n);
    }
  }

  lemma {:induction false} AttemptsAllCompare(h: History, i: nat, j: nat)
    requires i <= j <= |h.calls| && forall k :: i <= k < j ==> h.calls[k].request.ChangePassword?
    ensures AllComparisons(h, i, j) == j - i
    decreases j - i
  {
    if i < j {
      AttemptsAllCompare(h, i + 1, j);
    }
  }
}
