/**
 How many identity codes a run can try. Each issued code allows five comparisons, and destroying
 a code never clears the time it was sent, so a fresh budget costs a minute.
 */
module CodeGuessing {
  import opened Prelude
  import opened UserRecord
  import opened Accounts
  import opened AccountRuns

  /** The request gets as far as comparing the presented code with the stored hash. */
  predicate Compares(u: User, c: Call) {
    c.request.RequestChange? && u.email != c.request.newEmail && CodeLive(u, c.at)
  }

  function Comparisons(h: History, i: nat, j: nat): nat
    requires i <= j <= |h.calls|
    decreases j - i
  {
    if i == j then 0
    else (if Compares(h.At(i), h.calls[i]) then 1 else 0) + Comparisons(h, i + 1, j)
  }

  // ---- what one request does to the code fields --------------------------------------------

  lemma CodeFrame(id: UserId, policy: Policy, u: User, c: Call)
    requires !c.request.RequestCode? && !c.request.RequestChange?
    ensures SameOn(u, Step(id, policy, u, c), CodeFields)
  {
    LeftAlone(u, Handle(id, policy, u, c).writes, CodeFields);
  }

  /** A new code is stored only when the previous one was sent at least a minute ago. */
  lemma IssueEffect(id: UserId, policy: Policy, u: User, c: Call)
    requires c.request.RequestCode?
    ensures var v := Step(id, policy, u, c);
            if Throttled(u, c.at) then v == u
            else && v.codeHash == Some(HashEmailChangeCode(c.request.code, id))
                 && v.codeAttempts == 0 && v.codeSentAt == Some(c.at)
                 && v.codeExpires == Some(c.at + CODE_TTL_MS)
  {
    StepUnrolled(id, policy, u, c);
  }

  /** A comparison costs one attempt or destroys the code; it leaves the sending time alone. */
  lemma CheckEffect(id: UserId, policy: Policy, u: User, c: Call)
    requires c.request.RequestChange?
    ensures var v := Step(id, policy, u, c);
            && v.codeSentAt == u.codeSentAt
            && (v.codeHash.Some? ==>
                  && v.codeHash == u.codeHash && v.codeExpires == u.codeExpires
                  && v.codeAttempts == u.codeAttempts + (if Compares(u, c) then 1 else 0))
            && (Compares(u, c) && CodeAccepted(id, u, c.at, c.request.proof) ==> v.codeHash.None?)
  {
    StepUnrolled(id, policy, u, c);
  }

  // ---- the bound ---------------------------------------------------------------------------

  /** Comparisons the stored code still allows. */
  function Left(u: User): nat {
    if u.codeHash.Some? && u.codeAttempts < CODE_MAX_ATTEMPTS then CODE_MAX_ATTEMPTS - u.codeAttempts else 0
  }

  /** Codes that can still be issued between `a` and `b`. */
  function Issues(u: User, a: Instant, b: Instant): nat {
    var free := if u.codeSentAt.Some? && u.codeSentAt.value + CODE_RESEND_INTERVAL_MS > a
                then u.codeSentAt.value + CODE_RESEND_INTERVAL_MS else a;
    if free > b then 0 else (b - free) / CODE_RESEND_INTERVAL_MS + 1
  }

  function Budget(u: User, a: Instant, b: Instant): nat {
    Left(u) + CODE_MAX_ATTEMPTS * Issues(u, a, b)
  }

  lemma IssuesShrink(u: User, v: User, a: Instant, a': Instant, b: Instant)
    requires a <= a' && u.codeSentAt == v.codeSentAt
    ensures Issues(v, a', b) <= Issues(u, a, b)
  {
  }

  lemma StepFitsBudget(id: UserId, policy: Policy, u: User, c: Call, a: Instant, b: Instant)
    requires a <= c.at <= c.end <= b
    ensures (if Compares(u, c) then 1 else 0) + Budget(Step(id, policy, u, c), c.end, b) <= Budget(u, a, b)
  {
    var v := Step(id, policy, u, c);
    if c.request.RequestCode? {
      IssueEffect(id, policy, u, c);
      if Throttled(u, c.at) {
        IssuesShrink(u, v, a, c.end, b);
      } else {
        assert Issues(v, c.end, b) + 1 <= Issues(u, a, b);
      }
    } else if c.request.RequestChange? {
      CheckEffect(id, policy, u, c);
      IssuesShrink(u, v, a, c.end, b);
    } else {
      CodeFrame(id, policy, u, c);
      IssuesShrink(u, v, a, c.end, b);
    }
  }

  lemma {:induction false} ComparisonsFitBudget(h: History, i: nat, j: nat, a: Instant, b: Instant)
    requires h.Timely() && i <= j <= |h.calls| && h.Within(i, j, a, b) && a <= b
    ensures Comparisons(h, i, j) <= Budget(h.At(i), a, b)
    decreases j - i
  {
    if i < j {
      var c := h.calls[i];
      ComparisonsFitBudget(h, i + 1, j, c.end, b);
      StepFitsBudget(h.id, h.policy, h.At(i), c, a, b);
      hide Step, Budget, Compares;
    }
  }

  /**
   Over any stretch of length `T` of any run, whatever mix of issuing, guessing, clearing and
   reissuing it holds, at most `5 * (floor(T / 60000) + 2)` codes are compared.
   */
  lemma GuessesAreBounded(h: History, i: nat, j: nat, from: Instant, T: nat)
    requires h.Timely() && i <= j <= |h.calls| && h.Within(i, j, from, from + T)
    ensures Comparisons(h, i, j) <= 5 * (T / 60000 + 2)
  {
    ComparisonsFitBudget(h, i, j, from, from + T);
    var u := h.At(i);
    assert Issues(u, from, from + T) <= T / 60000 + 1;
  }
}
