/**
 Properties of every run of account requests against one user: what each single write keeps,
 how many guesses an interval allows, and what a revert undoes.
 */
module AccountRuns {
  import opened Prelude
  import opened UserRecord
  import opened Accounts

  function Step(id: UserId, policy: Policy, u: User, c: Call): User {
    ApplyAll(u, Handle(id, policy, u, c).writes)
  }

  /** No handler issues more than three writes, so a step is at most three of them in a row. */
  lemma Unrolled(u: User, ws: seq<Write>)
    ensures |ws| == 0 ==> ApplyAll(u, ws) == u
    ensures |ws| == 1 ==> ApplyAll(u, ws) == ApplyWrite(u, ws[0])
    ensures |ws| == 2 ==> ApplyAll(u, ws) == ApplyWrite(ApplyWrite(u, ws[0]), ws[1])
    ensures |ws| == 3 ==> ApplyAll(u, ws) == ApplyWrite(ApplyWrite(ApplyWrite(u, ws[0]), ws[1]), ws[2])
  {
    if |ws| > 0 {
      var v := ApplyWrite(u, ws[0]);
      if |ws| > 1 {
        assert ApplyAll(v, ws[1..]) == ApplyAll(ApplyWrite(v, ws[1]), ws[1..][1..]);
        if |ws| == 3 {
          var w := ApplyWrite(v, ws[1]);
          assert ApplyAll(w, ws[1..][1..]) == ApplyAll(ApplyWrite(w, ws[2]), ws[1..][1..][1..]);
        }
      }
    }
  }

  lemma StepUnrolled(id: UserId, policy: Policy, u: User, c: Call)
    ensures var ws := Handle(id, policy, u, c).writes;
            var v := Step(id, policy, u, c);
            && |ws| <= 3
            && (|ws| == 0 ==> v == u)
            && (|ws| == 1 ==> v == ApplyWrite(u, ws[0]))
            && (|ws| == 2 ==> v == ApplyWrite(ApplyWrite(u, ws[0]), ws[1]))
            && (|ws| == 3 ==> v == ApplyWrite(ApplyWrite(ApplyWrite(u, ws[0]), ws[1]), ws[2]))
  {
    Unrolled(u, Handle(id, policy, u, c).writes);
  }

  // ---- frames: which group of fields a write can change ----------------------------------

  datatype Group = LockFields | CodeFields | EmailFields | ResetFields | PasswordField

  /** The write mentions no field of the group. */
  predicate Leaves(w: Write, g: Group) {
    match w
    case BumpEpoch => true
    case Unset(fs) =>
      (match g
       case LockFields => true
       case CodeFields => CodeHashField !in fs && CodeExpires !in fs
       case EmailFields => fs !! {PendingEmail, PendingToken, PendingExpires, PreviousEmail}
       case _ => true)
    case Update(p) =>
      match g
      case LockFields => p.failedLogins.Absent? && p.lockedUntil.Absent?
      case CodeFields => p.codeHash.Absent? && p.codeExpires.Absent? && p.codeAttempts.Absent? && p.codeSentAt.Absent?
      case EmailFields =>
        && p.email.Absent? && p.pendingEmail.Absent? && p.pendingToken.Absent? && p.pendingExpires.Absent?
        && p.previousEmail.Absent? && p.revertToken.Absent? && p.revertExpires.Absent?
      case ResetFields => p.resetToken.Absent? && p.resetExpires.Absent?
      case PasswordField => p.password.Absent?
  }

  predicate SameOn(u: User, v: User, g: Group) {
    match g
    case LockFields => u.failedLogins == v.failedLogins && u.lockedUntil == v.lockedUntil
    case CodeFields =>
      && u.codeHash == v.codeHash && u.codeExpires == v.codeExpires
      && u.codeAttempts == v.codeAttempts && u.codeSentAt == v.codeSentAt
    case EmailFields =>
      && u.email == v.email && u.pendingEmail == v.pendingEmail && u.pendingToken == v.pendingToken
      && u.pendingExpires == v.pendingExpires && u.previousEmail == v.previousEmail
      && u.revertToken == v.revertToken && u.revertExpires == v.revertExpires
    case ResetFields => u.resetToken == v.resetToken && u.resetExpires == v.resetExpires
    case PasswordField => u.password == v.password
  }

  lemma {:induction false} LeftAlone(u: User, ws: seq<Write>, g: Group)
    requires forall w :: w in ws ==> Leaves(w, g)
    ensures SameOn(u, ApplyAll(u, ws), g)
    decreases |ws|
  {
    if ws != [] {
      assert Leaves(ws[0], g);
      LeftAlone(ApplyWrite(u, ws[0]), ws[1..], g);
    }
  }

  // ---- the record invariant -------------------------------------------------------------

  predicate CodeOk(u: User) {
    && (u.codeHash.Some? <==> u.codeExpires.Some?)
    && (u.codeHash.Some? ==>
          && u.codeAttempts < CODE_MAX_ATTEMPTS
          && u.codeSentAt.Some?
          && u.codeExpires.value == u.codeSentAt.value + CODE_TTL_MS)
  }

  predicate PendingOk(u: User) {
    u.pendingEmail.Some? == u.pendingToken.Some? == u.pendingExpires.Some?
  }

  predicate RevertOk(u: User) {
    u.previousEmail.Some? ==> u.revertToken.Some? && u.revertExpires.Some?
  }

  predicate LockOk(u: User, policy: Policy) {
    u.lockedUntil.Some? <==> u.failedLogins >= policy.maxAttempts
  }

  predicate RecordOk(u: User, policy: Policy) {
    CodeOk(u) && PendingOk(u) && RevertOk(u) && LockOk(u, policy)
  }

  /** The record is well formed after each write of `ws` in turn. */
  predicate OkThroughout(u: User, ws: seq<Write>, policy: Policy)
    decreases |ws|
  {
    RecordOk(u, policy) && (ws == [] || OkThroughout(ApplyWrite(u, ws[0]), ws[1..], policy))
  }

  lemma OkAfterPrefix(u: User, ws: seq<Write>, policy: Policy, k: nat)
    requires OkThroughout(u, ws, policy) && k <= |ws|
    ensures RecordOk(ApplyAll(u, ws[..k]), policy)
    decreases k
  {
    if k > 0 {
      assert ws[..k][1..] == ws[1..][..k - 1];
      OkAfterPrefix(ApplyWrite(u, ws[0]), ws[1..], policy, k - 1);
    }
  }

  lemma OkCons(u: User, w: Write, ws: seq<Write>, policy: Policy)
    requires RecordOk(u, policy) && OkThroughout(ApplyWrite(u, w), ws, policy)
    ensures OkThroughout(u, [w] + ws, policy)
  {
    assert ([w] + ws)[1..] == ws;
  }

  lemma OkSingle(u: User, w: Write, policy: Policy)
    requires RecordOk(u, policy) && RecordOk(ApplyWrite(u, w), policy)
    ensures OkThroughout(u, [w], policy)
  {
    OkCons(u, w, [], policy);
    assert [w] == [w] + [];
  }

  /** Clearing a code removes its hash before it resets the counter, never the other way round. */
  lemma ClearKeepsRecord(u: User, rest: seq<Write>, policy: Policy)
    requires RecordOk(u, policy)
    requires forall v :: RecordOk(v, policy) ==> OkThroughout(v, rest, policy)
    ensures OkThroughout(u, ClearCodeWrites() + rest, policy)
  {
    var clear := ClearCodeWrites();
    var v := ApplyWrite(u, clear[0]);
    OkCons(v, clear[1], rest, policy);
    OkCons(u, clear[0], [clear[1]] + rest, policy);
    assert clear + rest == [clear[0]] + ([clear[1]] + rest);
  }

  lemma CheckCodeKeepsRecord(id: UserId, u: User, now: Instant, proof: string, policy: Policy)
    requires RecordOk(u, policy)
    ensures OkThroughout(u, CheckCodeWrites(id, u, now, proof), policy)
  {
    if CodeLive(u, now) && !CodeAccepted(id, u, now, proof) && u.codeAttempts + 1 < CODE_MAX_ATTEMPTS {
      OkSingle(u, Update(Patch(codeAttempts := To(u.codeAttempts + 1))), policy);
    } else {
      ClearKeepsRecord(u, [], policy);
      assert ClearCodeWrites() + [] == ClearCodeWrites();
    }
  }

  lemma RequestChangeKeepsRecord(id: UserId, policy: Policy, u: User, c: Call)
    requires RecordOk(u, policy) && c.request.RequestChange?
    ensures OkThroughout(u, RequestChangePlan(id, u, c).writes, policy)
  {
    var stage := StageWrite(c.request.newEmail, c.request.changeToken, c.end);
    if u.email == c.request.newEmail {
    } else if CodeAccepted(id, u, c.at, c.request.proof) && !c.taken {
      forall v | RecordOk(v, policy) ensures OkThroughout(v, [stage], policy) {
        OkSingle(v, stage, policy);
      }
      ClearKeepsRecord(u, [stage], policy);
    } else {
      CheckCodeKeepsRecord(id, u, c.at, c.request.proof, policy);
    }
  }

  lemma ThreeKeepRecord(u: User, ws: seq<Write>, policy: Policy)
    requires |ws| == 3 && RecordOk(u, policy)
    requires var v := ApplyWrite(u, ws[0]);
             var w := ApplyWrite(v, ws[1]);
             RecordOk(v, policy) && RecordOk(w, policy) && RecordOk(ApplyWrite(w, ws[2]), policy)
    ensures OkThroughout(u, ws, policy)
  {
    var v := ApplyWrite(u, ws[0]);
    OkSingle(ApplyWrite(v, ws[1]), ws[2], policy);
    OkCons(v, ws[1], [ws[2]], policy);
    OkCons(u, ws[0], [ws[1], ws[2]], policy);
    assert ws == [ws[0]] + [ws[1], ws[2]];
    assert [ws[1], ws[2]] == [ws[1]] + [ws[2]];
  }

  lemma ConfirmKeepsRecord(policy: Policy, u: User, c: Call)
    requires RecordOk(u, policy) && c.request.Confirm?
    ensures OkThroughout(u, ConfirmPlan(u, c).writes, policy)
  {
    var ws := ConfirmPlan(u, c).writes;
    if ws != [] {
      ThreeKeepRecord(u, ws, policy);
    }
  }

  lemma RevertKeepsRecord(policy: Policy, u: User, c: Call)
    requires RecordOk(u, policy) && c.request.Revert?
    ensures OkThroughout(u, RevertPlan(u, c).writes, policy)
  {
    var ws := RevertPlan(u, c).writes;
    if ws != [] {
      ThreeKeepRecord(u, ws, policy);
    }
  }

  lemma PasswordWritesKeepRecord(policy: Policy, u: User, p: Patch)
    requires RecordOk(u, policy)
    requires p == Patch(password := p.password, resetToken := p.resetToken, resetExpires := p.resetExpires)
    ensures OkThroughout(u, [Update(p), BumpEpoch], policy)
  {
    OkCons(ApplyWrite(u, Update(p)), BumpEpoch, [], policy);
    OkCons(u, Update(p), [BumpEpoch], policy);
  }

  lemma LoginKeepsRecord(policy: Policy, u: User, at: Instant, end: Instant, password: string)
    requires policy.Sane() && RecordOk(u, policy)
    ensures OkThroughout(u, LoginPlan(u, policy, at, end, password).writes, policy)
  {
    var ws := LoginPlan(u, policy, at, end, password).writes;
    if ws != [] {
      OkSingle(u, ws[0], policy);
    }
  }

  lemma OneWriteKeepsRecord(id: UserId, policy: Policy, u: User, c: Call)
    requires policy.Sane() && RecordOk(u, policy)
    requires c.request.RequestCode? || c.request.Unlock? || c.request.ForgotPassword? || c.request.LogoutAll?
    ensures OkThroughout(u, Handle(id, policy, u, c).writes, policy)
  {
    match c.request
    case RequestCode(code) =>
      if !Throttled(u, c.at) {
        OkSingle(u, RequestCodePlan(id, u, c.at, code).writes[0], policy);
      }
    case Unlock => OkSingle(u, UnlockWrite(), policy);
    case ForgotPassword(token) => OkSingle(u, ForgotWrite(token, c.end), policy);
    case LogoutAll => OkSingle(u, BumpEpoch, policy);
  }

  lemma WritesKeepRecord(id: UserId, policy: Policy, u: User, c: Call)
    requires policy.Sane() && RecordOk(u, policy)
    ensures OkThroughout(u, Handle(id, policy, u, c).writes, policy)
  {
    match c.request
    case Login(password) => LoginKeepsRecord(policy, u, c.at, c.end, password);
    case RequestChange(_, _, _) => RequestChangeKeepsRecord(id, policy, u, c);
    case Confirm(_, _) => ConfirmKeepsRecord(policy, u, c);
    case Revert(_) => RevertKeepsRecord(policy, u, c);
    case ResetPassword(_, next) => PasswordWritesKeepRecord(policy, u, ResetWrites(next)[0].patch);
    case ChangePassword(_, next) => PasswordWritesKeepRecord(policy, u, ChangePasswordWrites(next)[0].patch);
    case _ => OneWriteKeepsRecord(id, policy, u, c);
  }

  /**
   The invariant holds after every single write a request issues, so a crash or a
   session-less fallback between two writes also leaves a well-formed record.
   */
  lemma EveryWriteKeepsRecord(id: UserId, policy: Policy, u: User, c: Call, k: nat)
    requires policy.Sane() && RecordOk(u, policy)
    requires k <= |Handle(id, policy, u, c).writes|
    ensures RecordOk(ApplyAll(u, Handle(id, policy, u, c).writes[..k]), policy)
  {
    WritesKeepRecord(id, policy, u, c);
    OkAfterPrefix(u, Handle(id, policy, u, c).writes, policy, k);
  }

  lemma StepKeepsRecord(id: UserId, policy: Policy, u: User, c: Call)
    requires policy.Sane() && RecordOk(u, policy)
    ensures RecordOk(Step(id, policy, u, c), policy)
  {
    var ws := Handle(id, policy, u, c).writes;
    assert ws[..|ws|] == ws;
    EveryWriteKeepsRecord(id, policy, u, c, |ws|);
  }

  /** With the pending fields kept together, a confirmation token always comes with an address. */
  lemma NoPendingBranchUnreachable(id: UserId, policy: Policy, u: User, c: Call)
    requires PendingOk(u)
    ensures Handle(id, policy, u, c).outcome != Err(NoPendingEmailChange)
  {
  }

  // ---- whole runs -----------------------------------------------------------------------

  /** A run: the requests against one user in the order they were served. */
  datatype History = History(id: UserId, policy: Policy, start: User, calls: seq<Call>) {

    /** The document before the `k`-th request. */
    function At(k: nat): User
      requires k <= |calls|
    {
      if k == 0 then start else Step(id, policy, At(k - 1), calls[k - 1])
    }

    function OutcomeOf(k: nat): Result<Reply, DomainError>
      requires k < |calls|
    {
      Handle(id, policy, At(k), calls[k]).outcome
    }

    /** Requests are served one after the other by a clock that never goes back. */
    predicate Timely() {
      && (forall k :: 0 <= k < |calls| ==> calls[k].at <= calls[k].end)
      && (forall j, k :: 0 <= j < k < |calls| ==> calls[j].end <= calls[k].at)
    }

    /** The requests `i..j` all fall between `from` and `to`. */
    predicate Within(i: nat, j: nat, from: Instant, to: Instant)
      requires i <= j <= |calls|
    {
      forall k :: i <= k < j ==> from <= calls[k].at && calls[k].end <= to
    }
  }

  /** Every document a run reaches is well formed. */
  lemma {:induction false} RunKeepsRecord(h: History, k: nat)
    requires h.policy.Sane() && RecordOk(h.start, h.policy) && k <= |h.calls|
    ensures RecordOk(h.At(k), h.policy)
  {
    if k > 0 {
      RunKeepsRecord(h, k - 1);
      StepKeepsRecord(h.id, h.policy, h.At(k - 1), h.calls[k - 1]);
    }
  }

  /** The stored address pairing makes the unreachable branch unreachable on every run. */
  lemma NoRunAnswersNoPending(h: History, k: nat)
    requires h.policy.Sane() && RecordOk(h.start, h.policy) && k < |h.calls|
    ensures h.OutcomeOf(k) != Err(NoPendingEmailChange)
  {
    RunKeepsRecord(h, k);
    NoPendingBranchUnreachable(h.id, h.policy, h.At(k), h.calls[k]);
  }
}
