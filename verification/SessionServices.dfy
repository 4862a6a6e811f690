/** Refresh, logout and revoke-all as the services run them, over the Redis denylist and the user documents. */
module SessionServices {
  import opened Prelude
  import opened UserRecord
  import opened Database
  import opened Sessions
  import Accounts
  import AccountRuns
  import AccountServices

  /** The denylist of refresh-token ids; every store failure reaches the caller. */
  class SessionRevocationService {
    var keys: map<string, Instant>

    constructor ()
      ensures keys == map[]
    {
      keys := map[];
    }

    method RevokeJti(jti: Jti, expSeconds: int, now: Instant, health: Health) returns (r: Answer)
      modifies this
      ensures (r, keys) == Sessions.RevokeJti(old(keys), jti, expSeconds, now, health)
    {
      var ttlSeconds := TtlSeconds(expSeconds, now);
      if ttlSeconds < 1 {
        return Ok(());
      }
      if health != Silent {
        keys := keys[JtiKey(jti) := now + ttlSeconds * 1000];
      }
      r := if health == Answers then Ok(()) else Err(StoreFailure);
    }

    method IsJtiRevoked(jti: Jti, now: Instant, health: Health) returns (r: Result<bool, DomainError>)
      ensures r == if health == Answers then Ok(Denied(keys, jti, now)) else Err(StoreFailure)
    {
      if health != Answers {
        return Err(StoreFailure);
      }
      r := Ok(JtiKey(jti) in keys && now < keys[JtiKey(jti)]);
    }
  }

  function Epochs(docs: Docs): map<UserId, nat> {
    map id | id in docs :: docs[id].sessionEpoch
  }

  lemma EpochsAfterRaise(before: Docs, id: UserId, after: Docs)
    requires id in before && after == before[id := ApplyWrite(before[id], BumpEpoch)]
    ensures Epochs(after) == Epochs(before)[id := Epochs(before)[id] + 1]
  {
  }

  lemma EpochsUnmoved(before: Docs, id: UserId, doc: User)
    requires id in before && doc.sessionEpoch == before[id].sessionEpoch
    ensures Epochs(before[id := doc]) == Epochs(before)
  {
  }

  lemma EpochsAfterInsert(before: Docs, id: UserId, doc: User)
    requires id !in before
    ensures Epochs(before[id := doc]) == Epochs(before)[id := doc.sessionEpoch]
  {
  }

  /** A login counts failures and clears locks; it never touches the epoch. */
  lemma LoginKeepsEpoch(id: UserId, policy: Accounts.Policy, u: User, c: Accounts.Call)
    requires c.request.Login?
    ensures AccountRuns.Step(id, policy, u, c).sessionEpoch == u.sessionEpoch
  {
    AccountRuns.StepUnrolled(id, policy, u, c);
  }

  class TokenService {
    const users: UserCollection
    const revocation: SessionRevocationService
    /** The signing secret, as the set of payloads it has signed. */
    var signed: set<Claims>

    constructor (users: UserCollection, revocation: SessionRevocationService)
      ensures this.users == users && this.revocation == revocation && signed == {}
    {
      this.users, this.revocation, signed := users, revocation, {};
    }

    function View(): Server
      reads this, users, revocation
    {
      Server(Epochs(users.docs), signed, revocation.keys)
    }

    /** Signs an access token and a refresh token stamped with the epoch of the document that was read. */
    method GenerateAuthResponse(id: UserId, user: User, end: Instant, jti: Jti) returns (refreshToken: Claims)
      modifies this`signed
      ensures refreshToken == Claims(id, Some(jti), Some(user.sessionEpoch), Some(end / 1000 + 7 * 24 * 60 * 60))
      ensures signed == old(signed)
                        + {Claims(id, None, None, Some(end / 1000 + 15 * 60)), refreshToken}
    {
      refreshToken := Claims(id, Some(jti), Some(user.sessionEpoch), Some(end / 1000 + REFRESH_TTL_SECONDS));
      signed := signed + {Claims(id, None, None, Some(end / 1000 + ACCESS_TTL_SECONDS)), refreshToken};
    }

    /** The whole of `login`: the account handler, then a token pair stamped with the user's epoch. */
    method SignIn(auth: AccountServices.AuthService, email: Address, password: string,
                  now: Instant, end: Instant, jti: Jti, writeFails: bool)
      returns (r: Result<Claims, DomainError>, who: Option<UserId>)
      requires auth.users.db == users && users.Valid()
      modifies users, this`signed
      ensures users.Valid()
      ensures r.Err? ==> View() == old(View())
      ensures who.None? ==> r.Err? && forall id :: id in old(users.docs) ==> old(users.docs)[id].email != email
      ensures who.Some? ==>
                && who.value in old(users.docs)
                && var u := old(users.docs)[who.value];
                && u.email == email
                && (r.Ok? <==> && u.isActive && !Accounts.Locked(u, now) && Matches(password, u.password)
                               && !(writeFails && (u.failedLogins > 0 || u.lockedUntil.Some?)))
      ensures r.Ok? ==>
                var u := old(users.docs)[who.value];
                && View() == Next(old(View()), Event.SignIn(who.value, now, end, jti))
                && r.value == Claims(who.value, Some(jti), Some(u.sessionEpoch), Some(end / 1000 + REFRESH_TTL_SECONDS))
    {
      ghost var before := users.docs;
      var outcome;
      outcome, who := auth.Login(email, password, now, end, writeFails);
      if who.Some? {
        ghost var c := Accounts.Call(now, end, false, Accounts.Request.Login(password));
        LoginKeepsEpoch(who.value, auth.users.policy, before[who.value], c);
        EpochsUnmoved(before, who.value, users.docs[who.value]);
        assert before == before[who.value := before[who.value]];
      }
      if outcome.Err? {
        return Err(outcome.error), who;
      }
      var refreshToken := GenerateAuthResponse(who.value, users.docs[who.value], end, jti);
      r := Ok(refreshToken);
    }

    /**
     Registration as far as sessions see it: a new user starts at epoch 0 and gets a token pair at once.
     The creation is not part of the transaction, so when the write after it fails the user stays.
     */
    method Register(id: UserId, user: User, nameTaken: bool, writeFails: bool, now: Instant, end: Instant, jti: Jti)
      returns (r: Result<Claims, DomainError>)
      requires users.Valid() && id !in users.docs && user.sessionEpoch == 0
      modifies users, this`signed
      ensures users.Valid()
      ensures r.Ok? <==> !nameTaken && !HeldByOther(old(users.docs), id, user.email) && !writeFails
      ensures nameTaken || HeldByOther(old(users.docs), id, user.email) ==>
                r == Err(DuplicateKey) && View() == old(View()) && users.docs == old(users.docs)
      ensures !nameTaken && !HeldByOther(old(users.docs), id, user.email) && writeFails ==>
                && r == Err(StoreFailure) && users.docs == old(users.docs)[id := user]
                && View() == Next(old(View()), Event.Register(id, now, end))
      ensures r.Ok? ==>
                && users.docs == old(users.docs)[id := user]
                && View() == Next(Next(old(View()), Event.Register(id, now, end)), Event.SignIn(id, now, end, jti))
                && r.value.sub == id && r.value.jti == Some(jti) && r.value.tv == Some(0)
    {
      if nameTaken {
        return Err(DuplicateKey);
      }
      EpochsAfterInsert(users.docs, id, user);
      var created := users.Insert(id, user);
      if created.Err? {
        return Err(created.error);
      }
      if writeFails {
        return Err(StoreFailure);
      }
      var refreshToken := GenerateAuthResponse(id, user, end, jti);
      r := Ok(refreshToken);
    }

    method VerifyRefreshPayload(token: Claims, now: Instant) returns (r: Answer)
      ensures r.Ok? <==> Verifies(signed, token, now)
      ensures r.Err? ==> r == Err(InvalidRefreshToken)
    {
      if token !in signed || (token.exp.Some? && token.exp.value <= now / 1000) {
        return Err(InvalidRefreshToken);
      }
      r := Ok(());
    }

    /** Fail-closed: a store that does not answer refuses the exchange. */
    method RefreshToken(token: Claims, now: Instant, end: Instant, jti: Jti, health: Health)
      returns (r: Result<Claims, DomainError>)
      modifies this`signed
      ensures var e := Refresh(token, now, end, jti, health);
              && View() == Next(old(View()), e)
              && (match Outcome(old(View()), e) case Ok(_) => r.Ok? case Err(error) => r == Err(error))
              && (r.Ok? ==> && r.value in signed && r.value.jti == Some(jti) && r.value.sub == token.sub
                            && r.value.tv == Some(old(View()).epochs[token.sub]))
    {
      var payload := VerifyRefreshPayload(token, now);
      if payload.Err? || token.jti.None? {
        return Err(InvalidRefreshToken);
      }
      if token.sub !in users.docs {
        return Err(UserNotFound);
      }
      var user := users.docs[token.sub];
      var tokenVersion := if token.tv.Some? then token.tv.value else 0;
      var revoked := revocation.IsJtiRevoked(token.jti.value, end, health);
      if revoked.Err? {
        return Err(InvalidRefreshToken);
      }
      if revoked.value || tokenVersion < user.sessionEpoch {
        return Err(InvalidRefreshToken);
      }
      var refreshToken := GenerateAuthResponse(token.sub, user, end, jti);
      r := Ok(refreshToken);
    }

    method Logout(token: Claims, now: Instant, end: Instant, health: Health) returns (r: Answer)
      modifies revocation
      ensures var e := Event.Logout(token, now, end, health);
              r == Outcome(old(View()), e) && View() == Next(old(View()), e)
    {
      var payload := VerifyRefreshPayload(token, now);
      if payload.Err? || token.jti.None? || token.exp.None? {
        return Err(InvalidRefreshToken);
      }
      r := revocation.RevokeJti(token.jti.value, token.exp.value, end, health);
    }

    /** Any committed epoch raise, whether a revoke-all or a credential change, is a revoke-all of the view. */
    method LogoutAll(id: UserId, now: Instant) returns (r: Answer)
      requires users.Valid()
      modifies users
      ensures users.Valid()
      ensures var e := RevokeAll(id, now, now);
              r == Outcome(old(View()), e) && View() == Next(old(View()), e)
    {
      r := users.Write(id, BumpEpoch);
      if r.Ok? {
        EpochsAfterRaise(old(users.docs), id, users.docs);
      } else {
        assert users.docs == old(users.docs);
      }
    }
  }

  // ---- credential changes and sessions ---------------------------------------------------------------

  /** The request changes the password or the address, and its plan goes through. */
  predicate ChangesCredential(id: UserId, policy: Accounts.Policy, u: User, c: Accounts.Call) {
    var outcome := Accounts.Handle(id, policy, u, c).outcome;
    match c.request
    case ResetPassword(_, _) => outcome.Ok?
    case ChangePassword(_, _) => outcome.Ok?
    case Confirm(_, _) => outcome.Ok?
    case Revert(_) => outcome == Ok(Accounts.Reverted)
    case _ => false
  }

  lemma CredentialChangeRaisesEpoch(id: UserId, policy: Accounts.Policy, u: User, c: Accounts.Call)
    requires ChangesCredential(id, policy, u, c)
    ensures AccountRuns.Step(id, policy, u, c).sessionEpoch == u.sessionEpoch + 1
  {
    AccountRuns.StepUnrolled(id, policy, u, c);
  }

  /** A committed credential change is, for the sessions, a revoke-all of that user and nothing else. */
  lemma CredentialChangeIsRevokeAll(before: Docs, after: Docs, id: UserId, policy: Accounts.Policy, c: Accounts.Call,
                                    signed: set<Claims>, deny: map<string, Instant>)
    requires AccountServices.Handled(before, after, id, policy, c) && ChangesCredential(id, policy, before[id], c)
    ensures Server(Epochs(after), signed, deny)
            == Next(Server(Epochs(before), signed, deny), RevokeAll(id, c.at, c.end))
  {
    CredentialChangeRaisesEpoch(id, policy, before[id], c);
    assert Epochs(after) == Epochs(before)[id := Epochs(before)[id] + 1];
  }

  /**
   End to end: once a password change, reset, confirmation or revert of a user is committed, no refresh
   token signed for that user before it is ever honoured again.
   */
  lemma CredentialChangeEndsSessions(before: Docs, after: Docs, id: UserId, policy: Accounts.Policy,
                                     c: Accounts.Call, r: Run, i: nat, k: nat)
    requires AccountServices.Handled(before, after, id, policy, c) && ChangesCredential(id, policy, before[id], c)
    requires WellFormed(r.start) && r.FreshIds() && i < k < |r.events|
    requires r.events[i] == RevokeAll(id, c.at, c.end) && r.At(i).epochs == Epochs(before)
    requires r.events[k].Refresh? && r.events[k].token in r.At(i).signed && r.events[k].token.sub == id
    ensures r.At(i + 1).epochs == Epochs(after) && r.OutcomeOf(k).Err?
  {
    CredentialChangeIsRevokeAll(before, after, id, policy, c, r.At(i).signed, r.At(i).deny);
    RevokeAllEndsSessions(r, i, k);
  }
}
