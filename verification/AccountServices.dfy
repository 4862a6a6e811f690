/**
 The account handlers as the services run them: a document is looked up, checked, and written
 step by step through the repository or inside a transaction; notifications follow the commit.
 */
module AccountServices {
  import opened Prelude
  import opened UserRecord
  import opened Accounts
  import opened Database
  import opened AccountRuns

  /** The emails the modelled handlers announce after a change. */
  datatype Notice =
    | PasswordChanged(to: Address)
    | ForgotPasswordMail(to: Address, resetToken: Token)
    | EmailChangeConfirmed(to: Address)
    | EmailChangedNoticeToOld(to: Address, newEmail: Address, revertToken: Token)
    | EmailChangeReverted(to: Address)

  /** `after` is what handling `c` makes of the document `id`, all other documents untouched. */
  predicate Handled(before: Docs, after: Docs, id: UserId, policy: Policy, c: Call) {
    id in before && after == before[id := Step(id, policy, before[id], c)]
  }

  /** The rules of a transaction, for the document `id` and the request `c`. */
  predicate AllOrNothing(before: Docs, after: Docs, id: UserId, policy: Policy, c: Call,
                         weather: Weather, committed: bool)
  {
    weather.sessionStarts ==>
      && (after == before || Handled(before, after, id, policy, c))
      && (committed ==> Handled(before, after, id, policy, c))
      && (!committed && weather.RepliesArrive() ==> after == before)
  }

  /** The rules once nothing stands in the way: the plan's own answer, and its writes exactly when it succeeds. */
  predicate Settled(before: Docs, after: Docs, id: UserId, policy: Policy, c: Call, r: Result<Reply, DomainError>) {
    && id in before && r == Handle(id, policy, before[id], c).outcome
    && if r.Ok? then Handled(before, after, id, policy, c) else after == before
  }

  lemma WritesAreHandled(docs: Docs, id: UserId, policy: Policy, c: Call, ws: seq<Write>)
    requires id in docs && TryAll(docs, id, ws).Ok?
    requires ws == Handle(id, policy, docs[id], c).writes
    ensures Handled(docs, TryAll(docs, id, ws).value, id, policy, c)
  {
    TryAllWritesOneDocument(docs, id, ws);
  }

  class UserService {
    const db: UserCollection
    const policy: Policy

    constructor (db: UserCollection, policy: Policy)
      ensures this.db == db && this.policy == policy
    {
      this.db, this.policy := db, policy;
    }

    method RequestEmailChangeCode(id: UserId, now: Instant, code: string) returns (r: Result<Reply, DomainError>)
      requires db.Valid()
      modifies db
      ensures db.Valid()
      ensures id !in old(db.docs) ==> r == Err(UserNotFound) && db.docs == old(db.docs)
      ensures id in old(db.docs) ==>
                var c := Call(now, now, false, RequestCode(code));
                && r == Handle(id, policy, old(db.docs)[id], c).outcome
                && Handled(old(db.docs), db.docs, id, policy, c)
    {
      if id !in db.docs {
        return Err(UserNotFound);
      }
      var user := db.docs[id];
      StepUnrolled(id, policy, user, Call(now, now, false, RequestCode(code)));
      if user.codeSentAt.Some? && now - user.codeSentAt.value < CODE_RESEND_INTERVAL_MS {
        assert db.docs == db.docs[id := user];
        return Err(ValidationError);
      }
      var _ := db.Write(id, Update(Patch(
        codeHash := To(HashEmailChangeCode(code, id)),
        codeExpires := To(now + CODE_TTL_MS),
        codeAttempts := To(0),
        codeSentAt := To(now))));
      r := Ok(CodeIssued(code));
    }

    /** Destroys the code with two writes: the hash and expiry first, then the counter. */
    method ClearEmailChangeCode(id: UserId)
      requires db.Valid() && id in db.docs
      modifies db
      ensures db.Valid() && TryAll(old(db.docs), id, ClearCodeWrites()) == Ok(db.docs)
    {
      var _ := db.Write(id, ClearCodeWrites()[0]);
      var _ := db.Write(id, ClearCodeWrites()[1]);
      assert ClearCodeWrites()[1..] == [ClearCodeWrites()[1]];
    }

    method AssertEmailChangeCode(id: UserId, user: User, now: Instant, proof: string) returns (accepted: bool)
      requires db.Valid() && id in db.docs && db.docs[id] == user
      modifies db
      ensures db.Valid()
      ensures accepted <==> CodeAccepted(id, user, now, proof)
      ensures TryAll(old(db.docs), id, CheckCodeWrites(id, user, now, proof)) == Ok(db.docs)
    {
      if user.codeHash.None? || user.codeExpires.None? || user.codeExpires.value < now
         || user.codeAttempts >= CODE_MAX_ATTEMPTS {
        if user.codeHash.Some? {
          ClearEmailChangeCode(id);
        }
        return false;
      }
      if HashEmailChangeCode(proof, id) != user.codeHash.value {
        var failed := user.codeAttempts + 1;
        if failed >= CODE_MAX_ATTEMPTS {
          ClearEmailChangeCode(id);
        } else {
          var count := Update(Patch(codeAttempts := To(failed)));
          assert TryAll(db.docs, id, [count]) == TryWrite(db.docs, id, count);
          var _ := db.Write(id, count);
        }
        return false;
      }
      ClearEmailChangeCode(id);
      accepted := true;
    }

    method RequestEmailChange(id: UserId, newEmail: Address, proof: string, token: Token, now: Instant, end: Instant)
      returns (r: Result<Reply, DomainError>)
      requires db.Valid()
      modifies db
      ensures db.Valid()
      ensures id !in old(db.docs) ==> r == Err(UserNotFound) && db.docs == old(db.docs)
      ensures id in old(db.docs) ==>
                var taken := HeldByOther(old(db.docs), id, newEmail);
                var c := Call(now, end, taken, RequestChange(newEmail, proof, token));
                && r == Handle(id, policy, old(db.docs)[id], c).outcome
                && Handled(old(db.docs), db.docs, id, policy, c)
    {
      if id !in db.docs {
        return Err(UserNotFound);
      }
      var user := db.docs[id];
      ghost var before := db.docs;
      ghost var taken := HeldByOther(db.docs, id, newEmail);
      ghost var c := Call(now, end, taken, RequestChange(newEmail, proof, token));
      if user.email == newEmail {
        assert db.docs == db.docs[id := user];
        return Err(ValidationError);
      }
      var checked := CheckCodeWrites(id, user, now, proof);
      var accepted := AssertEmailChangeCode(id, user, now, proof);
      TryAllWritesOneDocument(before, id, checked);
      if !accepted {
        return Err(InvalidEmailChangeCode);
      }
      assert (exists o :: o in db.docs && db.docs[o].email == newEmail) <==> taken by {
        assert db.docs[id].email == user.email by { LeftAlone(user, checked, EmailFields); }
        assert forall o :: o in before && o != id ==> db.docs[o] == before[o];
      }
      if exists o :: o in db.docs && db.docs[o].email == newEmail {
        return Err(EmailAlreadyExists);
      }
      var stage := StageWrite(newEmail, token, end);
      TryAllAppend(before, id, checked, stage);
      WritesAreHandled(before, id, policy, c, checked + [stage]);
      var _ := db.Write(id, stage);
      r := Ok(Staged(token));
    }

    /** The current password is proved before the new one is stored; both writes share one transaction. */
    method ChangePassword(id: UserId, current: string, next: PasswordHash, now: Instant, weather: Weather)
      returns (r: Result<Reply, DomainError>)
      requires db.Valid()
      modifies db
      ensures db.Valid()
      ensures id !in old(db.docs) ==> r == Err(UserNotFound) && db.docs == old(db.docs)
      ensures id in old(db.docs) ==>
                var c := Call(now, now, false, Request.ChangePassword(current, next));
                && (Handle(id, policy, old(db.docs)[id], c).outcome.Err? ==>
                      r == Handle(id, policy, old(db.docs)[id], c).outcome && db.docs == old(db.docs))
                && AllOrNothing(old(db.docs), db.docs, id, policy, c, weather, r.Ok?)
                && (weather.Calm() ==> Settled(old(db.docs), db.docs, id, policy, c, r))
    {
      if id !in db.docs {
        return Err(UserNotFound);
      }
      var user := db.docs[id];
      if !Matches(current, user.password) {
        assert db.docs == db.docs[id := user];
        return Err(CurrentPasswordIncorrect);
      }
      var ws := ChangePasswordWrites(next);
      PasswordWritesGoThrough(db.docs, id, ws[0]);
      WritesAreHandled(db.docs, id, policy, Call(now, now, false, Request.ChangePassword(current, next)), ws);
      var ran := RunInTransaction(db, id, ws, weather);
      r := if ran.Ok? then Ok(Done) else Err(ran.error);
    }

    method UnlockUser(id: UserId, now: Instant) returns (r: Result<Reply, DomainError>)
      requires db.Valid()
      modifies db
      ensures db.Valid()
      ensures id !in old(db.docs) ==> r == Err(UserNotFound) && db.docs == old(db.docs)
      ensures id in old(db.docs) ==>
                r == Ok(Done) && Handled(old(db.docs), db.docs, id, policy, Call(now, now, false, Unlock))
    {
      if id !in db.docs {
        return Err(UserNotFound);
      }
      StepUnrolled(id, policy, db.docs[id], Call(now, now, false, Unlock));
      var _ := db.Write(id, UnlockWrite());
      r := Ok(Done);
    }

    method BumpSessionEpoch(id: UserId, now: Instant) returns (r: Result<Reply, DomainError>)
      requires db.Valid()
      modifies db
      ensures db.Valid()
      ensures id !in old(db.docs) ==> r == Err(UserNotFound) && db.docs == old(db.docs)
      ensures id in old(db.docs) ==>
                r == Ok(Done) && Handled(old(db.docs), db.docs, id, policy, Call(now, now, false, LogoutAll))
    {
      if id in db.docs {
        StepUnrolled(id, policy, db.docs[id], Call(now, now, false, LogoutAll));
      }
      var bumped := db.Write(id, BumpEpoch);
      r := if bumped.Ok? then Ok(Done) else Err(bumped.error);
    }
  }

  lemma PasswordWritesGoThrough(docs: Docs, id: UserId, w: Write)
    requires id in docs && w.Update? && w.patch.email.Absent?
    ensures TryAll(docs, id, [w, BumpEpoch]).Ok?
  {
    assert [w, BumpEpoch][1..] == [BumpEpoch];
    assert [BumpEpoch][1..] == [];
  }

  /** Moving to another address goes through exactly when nobody else holds that address. */
  lemma AddressWritesGoThrough(docs: Docs, id: UserId, ws: seq<Write>)
    requires id in docs && |ws| == 3 && ws[0].Update? && ws[0].patch.email.To? && ws[1].Unset? && ws[2].BumpEpoch?
    ensures TryAll(docs, id, ws).Ok? <==> !HeldByOther(docs, id, ws[0].patch.email.value)
    ensures TryAll(docs, id, ws).Err? ==> TryAll(docs, id, ws) == Err(DuplicateKey)
    ensures TryAll(docs, id, ws).Err? ==>
              forall k :: 0 < k <= |ws| ==> TryAll(docs, id, ws[..k]).Err?
  {
    var first := TryWrite(docs, id, ws[0]);
    if first.Ok? {
      var second := TryWrite(first.value, id, ws[1]);
      assert TryAll(second.value, id, ws[1..][1..]) == TryWrite(second.value, id, ws[2]) by {
        assert ws[1..][1..] == [ws[2]];
        assert [ws[2]][1..] == [];
      }
    }
  }

  class AuthService {
    const users: UserService
    var sent: seq<Notice>

    constructor (users: UserService)
      ensures this.users == users && sent == []
    {
      this.users, sent := users, [];
    }

    method FindByEmail(email: Address) returns (who: Option<UserId>)
      ensures match who
              case Some(id) => id in users.db.docs && users.db.docs[id].email == email
              case None => forall id :: id in users.db.docs ==> users.db.docs[id].email != email
    {
      if id :| id in users.db.docs && users.db.docs[id].email == email {
        return Some(id);
      }
      who := None;
    }

    /** The lock is checked before the password, and only a real comparison can move the counter. */
    method Login(email: Address, password: string, now: Instant, end: Instant, writeFails: bool)
      returns (r: Result<Reply, DomainError>, who: Option<UserId>)
      requires users.db.Valid()
      modifies users.db
      ensures users.db.Valid()
      ensures who.None? ==>
                && r == Err(InvalidCredentials) && users.db.docs == old(users.db.docs)
                && forall id :: id in old(users.db.docs) ==> old(users.db.docs)[id].email != email
      ensures who.Some? ==>
                var c := Call(now, end, false, Request.Login(password));
                && who.value in old(users.db.docs) && old(users.db.docs)[who.value].email == email
                && var plan := Handle(who.value, users.policy, old(users.db.docs)[who.value], c);
                if writeFails && plan.writes != [] then r == Err(StoreFailure) && users.db.docs == old(users.db.docs)
                else r == plan.outcome && Handled(old(users.db.docs), users.db.docs, who.value, users.policy, c)
    {
      who := FindByEmail(email);
      if who.None? {
        return Err(InvalidCredentials), None;
      }
      var id := who.value;
      var user := users.db.docs[id];
      StepUnrolled(id, users.policy, user, Call(now, end, false, Request.Login(password)));
      assert users.db.docs == users.db.docs[id := user];
      if user.lockedUntil.Some? && user.lockedUntil.value > now {
        return Err(AccountLocked), who;
      }
      if !Matches(password, user.password) {
        var failed := user.failedLogins + 1;
        var patch := Patch(failedLogins := To(failed));
        if failed >= users.policy.maxAttempts {
          patch := patch.(lockedUntil := To(end + users.policy.lockoutMinutes * 60 * 1000));
        }
        if writeFails {
          return Err(StoreFailure), who;
        }
        var _ := users.db.Write(id, Update(patch));
        return Err(InvalidCredentials), who;
      }
      if user.failedLogins > 0 || user.lockedUntil.Some? {
        if writeFails {
          return Err(StoreFailure), who;
        }
        var _ := users.db.Write(id, UnlockWrite());
      }
      if !user.isActive {
        return Err(AccountInactive), who;
      }
      r := Ok(LoggedIn);
    }

    method LogoutAll(id: UserId, now: Instant) returns (r: Result<Reply, DomainError>)
      requires users.db.Valid()
      modifies users.db
      ensures users.db.Valid()
      ensures id !in old(users.db.docs) ==> r == Err(UserNotFound) && users.db.docs == old(users.db.docs)
      ensures id in old(users.db.docs) ==>
                && r == Ok(Done)
                && Handled(old(users.db.docs), users.db.docs, id, users.policy,
                           Call(now, now, false, Request.LogoutAll))
    {
      r := users.BumpSessionEpoch(id, now);
    }

    method ForgotPassword(email: Address, token: Token, now: Instant, end: Instant) returns (who: Option<UserId>)
      requires users.db.Valid()
      modifies this`sent, users.db
      ensures users.db.Valid()
      ensures who.None? ==>
                && users.db.docs == old(users.db.docs) && sent == old(sent)
                && forall id :: id in old(users.db.docs) ==> old(users.db.docs)[id].email != email
      ensures who.Some? ==>
                && who.value in old(users.db.docs) && old(users.db.docs)[who.value].email == email
                && Handled(old(users.db.docs), users.db.docs, who.value, users.policy,
                           Call(now, end, false, Request.ForgotPassword(token)))
                && sent == old(sent) + [ForgotPasswordMail(email, token)]
    {
      who := FindByEmail(email);
      if who.None? {
        return;
      }
      StepUnrolled(who.value, users.policy, users.db.docs[who.value],
                   Call(now, end, false, Request.ForgotPassword(token)));
      var _ := users.db.Write(who.value, ForgotWrite(token, end));
      sent := sent + [ForgotPasswordMail(email, token)];
    }

    /** A reset stores the password, consumes the token and revokes every session, or does none of it. */
    method ResetPassword(token: Token, next: PasswordHash, now: Instant, end: Instant, weather: Weather)
      returns (r: Result<Reply, DomainError>, who: Option<UserId>)
      requires users.db.Valid()
      modifies this`sent, users.db
      ensures users.db.Valid()
      ensures who.None? ==>
                && r == Err(ExpiredResetToken) && users.db.docs == old(users.db.docs) && sent == old(sent)
                && forall id :: id in old(users.db.docs) ==> !FoundByResetToken(old(users.db.docs)[id], token, now)
      ensures who.Some? ==>
                var before := old(users.db.docs);
                var c := Call(now, end, false, Request.ResetPassword(token, next));
                && who.value in before && FoundByResetToken(before[who.value], token, now)
                && var plan := Handle(who.value, users.policy, before[who.value], c);
                && (plan.outcome.Err? ==> r == plan.outcome && users.db.docs == before)
                && AllOrNothing(before, users.db.docs, who.value, users.policy, c, weather, r.Ok?)
                && (weather.Calm() ==> Settled(before, users.db.docs, who.value, users.policy, c, r))
                && sent == old(sent) + if r.Ok? then [PasswordChanged(before[who.value].email)] else []
    {
      if id :| id in users.db.docs && FoundByResetToken(users.db.docs[id], token, now) {
        who := Some(id);
      } else {
        return Err(ExpiredResetToken), None;
      }
      var id := who.value;
      var user := users.db.docs[id];
      assert users.db.docs == users.db.docs[id := user];
      if user.resetExpires.value < end {
        return Err(ExpiredResetToken), who;
      }
      var ws := ResetWrites(next);
      PasswordWritesGoThrough(users.db.docs, id, ws[0]);
      WritesAreHandled(users.db.docs, id, users.policy, Call(now, end, false, Request.ResetPassword(token, next)), ws);
      var ran := RunInTransaction(users.db, id, ws, weather);
      if ran.Err? {
        return Err(ran.error), who;
      }
      sent := sent + [PasswordChanged(user.email)];
      r := Ok(Done);
    }

    /** The new address, the revert window and the revocation commit together; both mailboxes hear of it afterwards. */
    method ConfirmEmailChange(token: Token, revertToken: Token, now: Instant, end: Instant, weather: Weather)
      returns (r: Result<Reply, DomainError>, who: Option<UserId>)
      requires users.db.Valid()
      modifies this`sent, users.db
      ensures users.db.Valid()
      ensures who.None? ==>
                && r == Err(ExpiredConfirmationToken) && users.db.docs == old(users.db.docs) && sent == old(sent)
                && forall id :: id in old(users.db.docs) ==> !FoundByPendingToken(old(users.db.docs)[id], token, now)
      ensures who.Some? ==>
                var before := old(users.db.docs);
                && who.value in before && FoundByPendingToken(before[who.value], token, now)
                && var u := before[who.value];
                && var taken := u.pendingEmail.Some? && HeldByOther(before, who.value, u.pendingEmail.value);
                && var c := Call(now, end, taken, Confirm(token, revertToken));
                && var plan := Handle(who.value, users.policy, u, c);
                && (plan.outcome.Err? && plan.outcome != Err(DuplicateKey) ==> r == plan.outcome)
                && (plan.outcome.Err? && weather.sessionStarts ==> r.Err? && users.db.docs == before)
                && AllOrNothing(before, users.db.docs, who.value, users.policy, c, weather, r.Ok?)
                && (weather.Calm() ==> Settled(before, users.db.docs, who.value, users.policy, c, r))
                && (r.Err? ==> sent == old(sent))
                && (r.Ok? ==> u.pendingEmail.Some?
                              && sent == old(sent)
                                         + [EmailChangeConfirmed(u.pendingEmail.value),
                                            EmailChangedNoticeToOld(u.email, u.pendingEmail.value, revertToken)])
    {
      if id :| id in users.db.docs && FoundByPendingToken(users.db.docs[id], token, now) {
        who := Some(id);
      } else {
        return Err(ExpiredConfirmationToken), None;
      }
      var id := who.value;
      var user := users.db.docs[id];
      assert users.db.docs == users.db.docs[id := user];
      if user.pendingExpires.value < end {
        return Err(ExpiredConfirmationToken), who;
      }
      if user.pendingEmail.None? {
        return Err(NoPendingEmailChange), who;
      }
      var newEmail := user.pendingEmail.value;
      var ws := ConfirmWrites(user, newEmail, revertToken, end);
      AddressWritesGoThrough(users.db.docs, id, ws);
      if !HeldByOther(users.db.docs, id, newEmail) {
        WritesAreHandled(users.db.docs, id, users.policy, Call(now, end, false, Confirm(token, revertToken)), ws);
      }
      var ran := RunInTransaction(users.db, id, ws, weather);
      if ran.Err? {
        return Err(ran.error), who;
      }
      sent := sent + [EmailChangeConfirmed(newEmail)];
      sent := sent + [EmailChangedNoticeToOld(user.email, newEmail, revertToken)];
      r := Ok(Done);
    }

    method NotifyReverted(restored: Address, reverted: Address)
      modifies this`sent
      ensures sent == old(sent) + [EmailChangeReverted(restored), EmailChangeReverted(reverted)]
    {
      var emails := [restored, reverted];
      for i := 0 to |emails|
        invariant sent == old(sent) + [EmailChangeReverted(restored), EmailChangeReverted(reverted)][..i]
      {
        sent := sent + [EmailChangeReverted(emails[i])];
      }
    }

    /** The token is the only proof. A second call finds no address to restore and answers without writing. */
    method RevertEmailChange(token: Token, now: Instant, weather: Weather)
      returns (r: Result<Reply, DomainError>, who: Option<UserId>)
      requires users.db.Valid()
      modifies this`sent, users.db
      ensures users.db.Valid()
      ensures who.None? ==>
                && r == Err(InvalidToken) && users.db.docs == old(users.db.docs) && sent == old(sent)
                && forall id :: id in old(users.db.docs) ==> old(users.db.docs)[id].revertToken != Some(token)
      ensures who.Some? ==>
                var before := old(users.db.docs);
                && who.value in before && before[who.value].revertToken == Some(token)
                && var u := before[who.value];
                && var taken := u.previousEmail.Some? && HeldByOther(before, who.value, u.previousEmail.value);
                && var c := Call(now, now, taken, Revert(token));
                && var plan := Handle(who.value, users.policy, u, c);
                && (plan.writes == [] && plan.outcome != Err(DuplicateKey) ==>
                      r == plan.outcome && users.db.docs == before)
                && (plan.outcome.Err? && weather.sessionStarts ==> r.Err? && users.db.docs == before)
                && AllOrNothing(before, users.db.docs, who.value, users.policy, c, weather, r.Ok?)
                && (weather.Calm() ==> Settled(before, users.db.docs, who.value, users.policy, c, r))
                && (r != Ok(Reverted) ==> sent == old(sent))
                && (r == Ok(Reverted) ==> u.previousEmail.Some?
                                          && sent == old(sent) + [EmailChangeReverted(u.previousEmail.value),
                                                                  EmailChangeReverted(u.email)])
    {
      if id :| id in users.db.docs && users.db.docs[id].revertToken == Some(token) {
        who := Some(id);
      } else {
        return Err(InvalidToken), None;
      }
      var id := who.value;
      var user := users.db.docs[id];
      assert users.db.docs == users.db.docs[id := user];
      if user.previousEmail.None? {
        return Ok(AlreadyReverted), who;
      }
      if user.revertExpires.None? || user.revertExpires.value < now {
        return Err(EmailRevertWindowExpired), who;
      }
      var restored := user.previousEmail.value;
      var ws := RevertWrites(restored);
      AddressWritesGoThrough(users.db.docs, id, ws);
      if !HeldByOther(users.db.docs, id, restored) {
        WritesAreHandled(users.db.docs, id, users.policy, Call(now, now, false, Revert(token)), ws);
      }
      var ran := RunInTransaction(users.db, id, ws, weather);
      if ran.Err? {
        return Err(ran.error), who;
      }
      NotifyReverted(restored, user.email);
      r := Ok(Reverted);
    }
  }

  // ---- what the four credential changes amount to ------------------------------------------------

  /** A new password replaces the old one and nothing else, and raises the epoch by exactly one. */
  lemma PasswordChangeRaisesEpochOnce(u: User, next: PasswordHash)
    ensures ApplyAll(u, ChangePasswordWrites(next)) == u.(password := next, sessionEpoch := u.sessionEpoch + 1)
  {
    Unrolled(u, ChangePasswordWrites(next));
  }

  /** A reset also consumes its token. */
  lemma ResetRaisesEpochOnce(u: User, next: PasswordHash)
    ensures ApplyAll(u, ResetWrites(next))
            == u.(password := next, resetToken := None, resetExpires := None, sessionEpoch := u.sessionEpoch + 1)
  {
    Unrolled(u, ResetWrites(next));
  }

  /** An applied address change opens the revert window, leaves nothing pending and raises the epoch by exactly one. */
  lemma ConfirmRaisesEpochOnce(u: User, newEmail: Address, token: Token, end: Instant)
    ensures ApplyAll(u, ConfirmWrites(u, newEmail, token, end))
            == u.(email := newEmail, previousEmail := Some(u.email), revertToken := Some(token),
                  revertExpires := Some(end + REVERT_WINDOW_MS), pendingEmail := None, pendingToken := None,
                  pendingExpires := None, sessionEpoch := u.sessionEpoch + 1)
  {
    Unrolled(u, ConfirmWrites(u, newEmail, token, end));
  }

  /** A revert forgets the old address and anything pending, and raises the epoch by exactly one. */
  lemma RevertRaisesEpochOnce(u: User, restored: Address)
    ensures ApplyAll(u, RevertWrites(restored))
            == u.(email := restored, previousEmail := None, pendingEmail := None, pendingToken := None,
                  pendingExpires := None, sessionEpoch := u.sessionEpoch + 1)
  {
    Unrolled(u, RevertWrites(restored));
  }

  /**
   `undefined` removes a field only on the save path: the reset consumes its token because the
   same patch carries a password, and the same removal sent without one would keep it.
   */
  lemma ResetTokenIsSingleUse(u: User, next: PasswordHash, token: Token, now: Instant)
    ensures !FoundByResetToken(ApplyAll(u, ResetWrites(next)), token, now)
    ensures ApplyPatch(u, Patch(resetToken := Undefined, resetExpires := Undefined)) == u
  {
    Unrolled(u, ResetWrites(next));
  }
}
