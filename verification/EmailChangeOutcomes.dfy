/**
 When each step of an email change succeeds, in terms of the requests before it: a code can be
 issued, a code is accepted, a change is staged, a staged change is confirmed.
 */
module EmailChangeOutcomes {
  import opened Prelude
  import opened UserRecord
  import opened Accounts
  import opened AccountRuns
  import opened EmailChangeRuns
  import CodeGuessing

  // ---- issuing --------------------------------------------------------------------------------

  /** Only an issued code moves the sending time. */
  lemma SentAtMoves(h: History, k: nat)
    requires k < |h.calls|
    ensures h.At(k + 1).codeSentAt == if Hits(h, Issue, k) then Some(h.calls[k].at) else h.At(k).codeSentAt
  {
    var u, c := h.At(k), h.calls[k];
    if c.request.RequestCode? {
      CodeGuessing.IssueEffect(h.id, h.policy, u, c);
    } else if c.request.RequestChange? {
      CodeGuessing.CheckEffect(h.id, h.policy, u, c);
    } else {
      CodeGuessing.CodeFrame(h.id, h.policy, u, c);
    }
  }

  lemma {:induction false} SentAtStays(h: History, i: nat, k: nat)
    requires i <= k <= |h.calls| && forall m :: i <= m < k ==> !Hits(h, Issue, m)
    ensures h.At(k).codeSentAt == h.At(i).codeSentAt
    decreases k - i
  {
    hide Hits, History.At;
    if i < k {
      SentAtStays(h, i, k - 1);
      SentAtMoves(h, k - 1);
    }
  }

  /** The first code of an account is always issued, and answered with the code itself. */
  lemma FirstCodeIsIssued(h: History, j: nat)
    requires j < |h.calls| && h.calls[j].request.RequestCode? && h.start.codeSentAt.None?
    requires forall m :: 0 <= m < j ==> !Hits(h, Issue, m)
    ensures h.OutcomeOf(j) == Ok(CodeIssued(h.calls[j].request.code))
  {
    SentAtStays(h, 0, j);
  }

  /** Another one is issued exactly when a minute has passed since the last, whatever became of that one. */
  lemma NextCodeAfterAMinute(h: History, i: nat, j: nat)
    requires i < j < |h.calls| && Hits(h, Issue, i) && NoneSince(h, Issue, i, j) && h.calls[j].request.RequestCode?
    ensures h.OutcomeOf(j)
            == if h.calls[j].at - h.calls[i].at >= 60 * 1000 then Ok(CodeIssued(h.calls[j].request.code))
               else Err(ValidationError)
  {
    SentAtMoves(h, i);
    SentAtStays(h, i + 1, j);
  }

  // ---- checking --------------------------------------------------------------------------------

  lemma {:induction false} ComparisonsSnoc(h: History, i: nat, j: nat)
    requires i < j <= |h.calls|
    ensures CodeGuessing.Comparisons(h, i, j)
            == CodeGuessing.Comparisons(h, i, j - 1)
               + (if CodeGuessing.Compares(h.At(j - 1), h.calls[j - 1]) then 1 else 0)
    decreases j - i
  {
    if i < j - 1 {
      ComparisonsSnoc(h, i + 1, j);
    }
  }

  /** The code issued by request `i` has been neither accepted nor guessed wrong five times before request `k`. */
  predicate Unspent(h: History, i: nat, k: nat)
    requires i < k <= |h.calls|
  {
    NoneSince(h, Check, i, k) && CodeGuessing.Comparisons(h, i + 1, k) < 5
  }

  /** The stored code is exactly the unspent one, as long as it has not expired. */
  predicate CodeIsThat(h: History, i: nat, k: nat)
    requires i < k <= |h.calls| && h.calls[i].request.RequestCode?
  {
    var u := h.At(k);
    if Unspent(h, i, k) then
      && u.codeHash == Some(HashEmailChangeCode(h.calls[i].request.code, h.id))
      && u.codeExpires == Some(h.calls[i].at + CODE_TTL_MS)
      && u.codeAttempts == CodeGuessing.Comparisons(h, i + 1, k)
    else u.codeHash.None?
  }

  lemma CodeAfterIssue(h: History, i: nat)
    requires i < |h.calls| && Hits(h, Issue, i)
    ensures CodeIsThat(h, i, i + 1)
  {
    CodeGuessing.IssueEffect(h.id, h.policy, h.At(i), h.calls[i]);
  }

  /** A change request against a live code: a wrong guess counts, the fifth or a right one destroys it. */
  lemma LiveCheck(id: UserId, policy: Policy, u: User, c: Call)
    requires c.request.RequestChange? && u.codeHash.Some? && u.codeAttempts < 5
    requires u.codeExpires.Some? && u.codeExpires.value >= c.at
    ensures var v := Step(id, policy, u, c);
            if u.email == c.request.newEmail then v == u && !CodeGuessing.Compares(u, c)
            else
              && CodeGuessing.Compares(u, c)
              && if CodeAccepted(id, u, c.at, c.request.proof) || u.codeAttempts + 1 >= 5 then v.codeHash.None?
                 else v.codeHash == u.codeHash && v.codeExpires == u.codeExpires && v.codeAttempts == u.codeAttempts + 1
  {
    StepUnrolled(id, policy, u, c);
  }

  lemma CheckWithoutCode(id: UserId, policy: Policy, u: User, c: Call)
    requires c.request.RequestChange? && u.codeHash.None?
    ensures Step(id, policy, u, c).codeHash.None? && !CodeGuessing.Compares(u, c)
  {
    StepUnrolled(id, policy, u, c);
  }

  lemma UnspentStep(h: History, i: nat, k: nat)
    requires i < k < |h.calls|
    ensures Unspent(h, i, k + 1)
            <==> && Unspent(h, i, k) && !Hits(h, Check, k)
                 && (CodeGuessing.Compares(h.At(k), h.calls[k]) ==> CodeGuessing.Comparisons(h, i + 1, k) + 1 < 5)
    ensures CodeGuessing.Comparisons(h, i + 1, k + 1)
            == CodeGuessing.Comparisons(h, i + 1, k) + if CodeGuessing.Compares(h.At(k), h.calls[k]) then 1 else 0
  {
    hide Hits, History.At, CodeGuessing.Compares;
    ComparisonsSnoc(h, i + 1, k + 1);
  }

  lemma CodeStep(h: History, i: nat, k: nat)
    requires i < k < |h.calls| && h.calls[i].request.RequestCode? && CodeIsThat(h, i, k) && !Hits(h, Issue, k)
    requires h.calls[k].at <= h.calls[i].at + CODE_TTL_MS
    ensures CodeIsThat(h, i, k + 1)
  {
    var u, c := h.At(k), h.calls[k];
    UnspentStep(h, i, k);
    if c.request.RequestCode? {
      CodeGuessing.IssueEffect(h.id, h.policy, u, c);
    } else if c.request.RequestChange? {
      if u.codeHash.Some? {
        LiveCheck(h.id, h.policy, u, c);
      } else {
        CheckWithoutCode(h.id, h.policy, u, c);
      }
    } else {
      CodeGuessing.CodeFrame(h.id, h.policy, u, c);
    }
  }

  /** The requests between `i` and `k` are served within the lifetime of the code issued by `i`. */
  predicate WithinLifetime(h: History, i: nat, k: nat)
    requires i < k <= |h.calls|
  {
    forall m :: i < m < k ==> h.calls[m].at <= h.calls[i].at + CODE_TTL_MS
  }

  lemma {:induction false} CodeStays(h: History, i: nat, k: nat)
    requires i < k <= |h.calls| && h.calls[i].request.RequestCode? && Hits(h, Issue, i)
    requires NoneSince(h, Issue, i, k) && WithinLifetime(h, i, k)
    ensures CodeIsThat(h, i, k)
    decreases k
  {
    hide Hits, History.At, CodeIsThat;
    if k == i + 1 {
      CodeAfterIssue(h, i);
    } else {
      CodeStays(h, i, k - 1);
      CodeStep(h, i, k - 1);
    }
  }

  lemma {:induction false} ExpiryStays(h: History, i: nat, k: nat)
    requires i < k <= |h.calls| && Hits(h, Issue, i) && NoneSince(h, Issue, i, k) && h.At(k).codeHash.Some?
    ensures h.At(k).codeExpires == Some(h.calls[i].at + CODE_TTL_MS)
    decreases k
  {
    var u, c := h.At(k - 1), h.calls[k - 1];
    if c.request.RequestCode? {
      CodeGuessing.IssueEffect(h.id, h.policy, u, c);
    } else if c.request.RequestChange? {
      CodeGuessing.CheckEffect(h.id, h.policy, u, c);
    } else {
      CodeGuessing.CodeFrame(h.id, h.policy, u, c);
    }
    if k > i + 1 {
      assert !Hits(h, Issue, k - 1);
      ExpiryStays(h, i, k - 1);
    }
  }

  /** What a presented code has to be, given that the latest one was issued by request `i`. */
  predicate Proves(h: History, i: nat, j: nat)
    requires i < j < |h.calls| && h.calls[j].request.RequestChange? && h.OutcomeOf(i).Ok?
  {
    && h.OutcomeOf(i).value == CodeIssued(h.calls[j].request.proof)
    && h.calls[j].at <= h.calls[i].at + 10 * 60 * 1000 && Unspent(h, i, j)
  }

  lemma AcceptedIffProves(h: History, i: nat, j: nat)
    requires h.Timely() && i < j < |h.calls| && Hits(h, Issue, i) && NoneSince(h, Issue, i, j)
    requires h.calls[j].request.RequestChange?
    ensures CodeAccepted(h.id, h.At(j), h.calls[j].at, h.calls[j].request.proof) <==> Proves(h, i, j)
  {
    var u, c, code := h.At(j), h.calls[j], h.calls[i].request.code;
    if c.at <= h.calls[i].at + CODE_TTL_MS {
      forall m | i < m < j ensures h.calls[m].at <= h.calls[i].at + CODE_TTL_MS {
        assert h.calls[m].at <= h.calls[m].end <= c.at;
      }
      CodeStays(h, i, j);
      if HashEmailChangeCode(c.request.proof, h.id) == HashEmailChangeCode(code, h.id) {
        HashIsInjective(c.request.proof, code, h.id);
      }
    } else if u.codeHash.Some? {
      ExpiryStays(h, i, j);
    }
  }

  /**
   A change is staged exactly when the address differs and is free, and the proof is the very code
   answered last, at most ten minutes old, not accepted before and not guessed wrong five times.
   Otherwise the refusal says which of the three it was, in that order of precedence: the same
   address, the code, the taken address.
   */
  lemma StagingSucceedsExactly(h: History, i: nat, j: nat)
    requires h.Timely() && i < j < |h.calls| && Hits(h, Issue, i) && NoneSince(h, Issue, i, j)
    requires h.calls[j].request.RequestChange?
    ensures var c := h.calls[j];
            h.OutcomeOf(j)
            == if h.At(j).email == c.request.newEmail then Err(ValidationError)
               else if !Proves(h, i, j) then Err(InvalidEmailChangeCode)
               else if c.taken then Err(EmailAlreadyExists)
               else Ok(Staged(c.request.changeToken))
  {
    AcceptedIffProves(h, i, j);
  }

  // ---- confirming and reverting -----------------------------------------------------------------

  lemma PendingUntouched(h: History, k: nat)
    requires k < |h.calls| && !Hits(h, Stage, k) && !Hits(h, Apply, k) && !Hits(h, Undo, k)
    ensures SamePending(h.At(k), h.At(k + 1))
  {
    EmailTransition(h, k);
  }

  lemma {:induction false} PendingStays(h: History, i: nat, k: nat)
    requires i < k <= |h.calls| && Hits(h, Stage, i)
    requires NoneSince(h, Stage, i, k) && NoneSince(h, Apply, i, k) && NoneSince(h, Undo, i, k)
    ensures var u, c := h.At(k), h.calls[i];
            && u.pendingEmail == Some(c.request.newEmail) && u.pendingToken == Some(c.request.changeToken)
            && u.pendingExpires == Some(c.end + CONFIRMATION_TTL_MS)
    decreases k
  {
    if k == i + 1 {
      PendingMoves(h, i);
    } else {
      hide Hits;
      PendingStays(h, i, k - 1);
      PendingUntouched(h, k - 1);
    }
  }

  /**
   The token of the latest staging, neither applied nor reverted since, is confirmed exactly within 24
   hours of it with the address still free. Then the address is the staged one, the old one is kept
   with a 72-hour revert window, nothing is pending, and the epoch is one higher.
   */
  lemma ConfirmSucceedsExactly(h: History, i: nat, j: nat)
    requires i < j < |h.calls| && Hits(h, Stage, i)
    requires NoneSince(h, Stage, i, j) && NoneSince(h, Apply, i, j) && NoneSince(h, Undo, i, j)
    requires h.calls[j].request.Confirm? && h.calls[j].request.confirmToken == h.calls[i].request.changeToken
    ensures var c, deadline := h.calls[j], h.calls[i].end + 24 * 60 * 60 * 1000;
            h.OutcomeOf(j)
            == if c.at >= deadline || c.end > deadline then Err(ExpiredConfirmationToken)
               else if c.taken then Err(DuplicateKey)
               else Ok(Done)
    ensures h.OutcomeOf(j).Ok? ==>
              var u, v, c := h.At(j), h.At(j + 1), h.calls[j];
              && v.email == h.calls[i].request.newEmail && v.previousEmail == Some(u.email)
              && v.revertToken == Some(c.request.freshRevertToken)
              && v.revertExpires == Some(c.end + 72 * 60 * 60 * 1000)
              && v.pendingEmail.None? && v.pendingToken.None? && v.sessionEpoch == u.sessionEpoch + 1
  {
    PendingStays(h, i, j);
    ConfirmEffect(h.id, h.policy, h.At(j), h.calls[j]);
  }

  /** Why a revert of the change applied by request `i` is refused, if it is. */
  lemma RevertRefusals(h: History, i: nat, j: nat)
    requires i < j < |h.calls| && Hits(h, Apply, i) && Undisturbed(h, i + 1, j)
    requires h.calls[j].request == Revert(h.calls[i].request.freshRevertToken)
    ensures h.OutcomeOf(j)
            == if h.calls[j].at > h.calls[i].end + 72 * 60 * 60 * 1000 then Err(EmailRevertWindowExpired)
               else if h.calls[j].taken then Err(DuplicateKey)
               else Ok(Reverted)
  {
    ConfirmEffect(h.id, h.policy, h.At(i), h.calls[i]);
    RevertStateKept(h, i + 1, j);
  }
}
