/**
 Refresh-token revocation: a denylist whose entries expire and one integer per user, against a
 server that would remember every revoked token forever.
 */
module Sessions {
  import opened Prelude
  import opened UserRecord

  type Jti = string

  /** A verified payload. Access tokens, and refresh tokens older than the scheme, carry no `jti` and no `tv`. */
  datatype Claims = Claims(sub: UserId, jti: Option<Jti>, tv: Option<nat>, exp: Option<int>)

  const REFRESH_TTL_SECONDS: int := 7 * 24 * 60 * 60
  const ACCESS_TTL_SECONDS: int := 15 * 60
  const REVOKED_JTI_PREFIX: string := "revoked:refresh:"

  function JtiKey(jti: Jti): string {
    REVOKED_JTI_PREFIX + jti
  }

  lemma JtiKeyIsInjective(a: Jti, b: Jti)
    requires JtiKey(a) == JtiKey(b)
    ensures a == b
  {
    var n := |REVOKED_JTI_PREFIX|;
    assert a == JtiKey(a)[n..] && b == JtiKey(b)[n..];
  }

  /** How Redis treats one command: it answers, it is down, or it obeys and the reply is lost. */
  datatype Health = Answers | Silent | AppliesThenSilent

  /** Users' epochs, the payloads the secret has signed, and the denylist with each key's deadline. */
  datatype Server = Server(epochs: map<UserId, nat>, signed: set<Claims>, deny: map<string, Instant>)

  /** One request: the signature is checked at `at`, the store is asked and the reply signed at `end`. */
  datatype Event =
    | Register(sub: UserId, at: Instant, end: Instant)
    | SignIn(sub: UserId, at: Instant, end: Instant, freshJti: Jti)
    | Refresh(token: Claims, at: Instant, end: Instant, freshJti: Jti, health: Health)
    | Logout(token: Claims, at: Instant, end: Instant, health: Health)
    | RevokeAll(sub: UserId, at: Instant, end: Instant)

  type Answer = Result<(), DomainError>

  // ---- the code's decisions ----------------------------------------------------------------------

  /** RFC 7519 section 4.1.4: a token is refused on or after the second its `exp` names. */
  predicate Verifies(signed: set<Claims>, token: Claims, now: Instant) {
    token in signed && (token.exp.Some? ==> now / 1000 < token.exp.value)
  }

  function Tv(token: Claims): nat {
    if token.tv.Some? then token.tv.value else 0
  }

  /** Seconds the denylist entry lives: the remaining life, rounded up. */
  function TtlSeconds(exp: int, now: Instant): int {
    (exp * 1000 - now + 999) / 1000
  }

  predicate Denied(deny: map<string, Instant>, jti: Jti, now: Instant) {
    JtiKey(jti) in deny && now < deny[JtiKey(jti)]
  }

  function RefreshAnswer(s: Server, token: Claims, at: Instant, end: Instant, health: Health): Answer {
    if !Verifies(s.signed, token, at) || token.jti.None? then Err(InvalidRefreshToken)
    else if token.sub !in s.epochs then Err(UserNotFound)
    else if health != Answers then Err(InvalidRefreshToken)
    else if Denied(s.deny, token.jti.value, end) || Tv(token) < s.epochs[token.sub] then Err(InvalidRefreshToken)
    else Ok(())
  }

  function RevokeJti(deny: map<string, Instant>, jti: Jti, exp: int, now: Instant, health: Health)
    : (r: (Answer, map<string, Instant>))
  {
    var ttl := TtlSeconds(exp, now);
    if ttl < 1 then (Ok(()), deny)
    else
      var written := deny[JtiKey(jti) := now + ttl * 1000];
      match health
      case Answers => (Ok(()), written)
      case Silent => (Err(StoreFailure), deny)
      case AppliesThenSilent => (Err(StoreFailure), written)
  }

  predicate Revocable(s: Server, token: Claims, at: Instant) {
    Verifies(s.signed, token, at) && token.jti.Some? && token.exp.Some?
  }

  /** Access and refresh token of one `AuthResponse`. */
  function Issue(s: Server, sub: UserId, end: Instant, jti: Jti): set<Claims>
    requires sub in s.epochs
  {
    {Claims(sub, None, None, Some(end / 1000 + ACCESS_TTL_SECONDS)),
     Claims(sub, Some(jti), Some(s.epochs[sub]), Some(end / 1000 + REFRESH_TTL_SECONDS))}
  }

  function Outcome(s: Server, e: Event): Answer {
    match e
    case Register(sub, _, _) => if sub in s.epochs then Err(DuplicateKey) else Ok(())
    case SignIn(sub, _, _, _) => if sub in s.epochs then Ok(()) else Err(InvalidCredentials)
    case Refresh(token, at, end, _, health) => RefreshAnswer(s, token, at, end, health)
    case Logout(token, at, end, health) =>
      if Revocable(s, token, at) then RevokeJti(s.deny, token.jti.value, token.exp.value, end, health).0
      else Err(InvalidRefreshToken)
    case RevokeAll(sub, _, _) => if sub in s.epochs then Ok(()) else Err(UserNotFound)
  }

  function Next(s: Server, e: Event): Server {
    match e
    case Register(sub, _, _) => if sub in s.epochs then s else s.(epochs := s.epochs[sub := 0])
    case SignIn(sub, _, end, jti) =>
      if sub in s.epochs then s.(signed := s.signed + Issue(s, sub, end, jti)) else s
    case Refresh(token, at, end, jti, health) =>
      if RefreshAnswer(s, token, at, end, health).Ok? then s.(signed := s.signed + Issue(s, token.sub, end, jti)) else s
    case Logout(token, at, end, health) =>
      if Revocable(s, token, at) then
        s.(deny := RevokeJti(s.deny, token.jti.value, token.exp.value, end, health).1)
      else s
    case RevokeAll(sub, _, _) =>
      if sub in s.epochs then s.(epochs := s.epochs[sub := s.epochs[sub] + 1]) else s
  }

  // ---- the TTL -------------------------------------------------------------------------------------

  /** The entry ends at or after the token's expiry, and less than a second after it. */
  lemma EntryOutlivesToken(exp: int, now: Instant)
    ensures exp * 1000 <= now + TtlSeconds(exp, now) * 1000 < exp * 1000 + 1000
    ensures TtlSeconds(exp, now) < 1 <==> exp * 1000 <= now
  {
  }

  // ---- the server that remembers ---------------------------------------------------------------------

  datatype Run = Run(since: Instant, start: Server, events: seq<Event>) {

    function At(k: nat): Server
      requires k <= |events|
    {
      if k == 0 then start else Next(At(k - 1), events[k - 1])
    }

    function OutcomeOf(k: nat): Answer
      requires k < |events|
    {
      Outcome(At(k), events[k])
    }

    /** Every token revoked so far: it only ever grows. */
    function Revoked(k: nat): set<Claims>
      requires k <= |events|
    {
      if k == 0 then set c | c in start.signed && c.sub in start.epochs && Tv(c) < start.epochs[c.sub]
      else Revoked(k - 1) + NewlyRevoked(k - 1)
    }

    function NewlyRevoked(k: nat): set<Claims>
      requires k < |events|
    {
      RevokedBy(At(k), events[k])
    }

    function Now(k: nat): Instant
      requires k <= |events|
    {
      if k == 0 then since else events[k - 1].end
    }

    /** Tokens whose logout took effect although its caller was told it failed. */
    function Lost(k: nat): set<Claims>
      requires k <= |events|
    {
      if k == 0 then {} else Lost(k - 1) + LostBy(events[k - 1])
    }

    predicate Timely() {
      && (forall k :: 0 <= k < |events| ==> events[k].at <= events[k].end)
      && (forall k :: 0 <= k < |events| ==> Now(k) <= events[k].at)
    }

    /** `randomUUID`: a token id handed out was never signed before. */
    predicate FreshIds() {
      forall k, c :: 0 <= k < |events| && c in At(k).signed ==> !(UsesId(events[k], c))
    }
  }

  /** What one request revokes, as its caller is told: a logout that reports success, a revoke-all. */
  function RevokedBy(s: Server, e: Event): set<Claims> {
    match e
    case Logout(token, _, _, _) => if Outcome(s, e).Ok? then {token} else {}
    case RevokeAll(sub, _, _) => set c | c in s.signed && c.sub == sub
    case _ => {}
  }

  predicate UsesId(e: Event, c: Claims) {
    (e.SignIn? || e.Refresh?) && c.jti == Some(e.freshJti)
  }

  /** A logout whose reply was lost: in force, although reported as a failure. */
  function LostBy(e: Event): set<Claims> {
    if e.Logout? && e.health == AppliesThenSilent then {e.token} else {}
  }

  /** What a server that never forgets answers to a refresh. */
  function IdealAnswer(users: set<UserId>, signed: set<Claims>, revoked: set<Claims>, e: Event): Answer
    requires e.Refresh?
  {
    if !Verifies(signed, e.token, e.at) || e.token.jti.None? then Err(InvalidRefreshToken)
    else if e.token.sub !in users then Err(UserNotFound)
    else if e.health != Answers || e.token in revoked then Err(InvalidRefreshToken)
    else Ok(())
  }

  /**
   The signature check falls before the token's expiry and the store is asked only after the
   denylist entry has gone; no epoch raise stands in the way.
   */
  predicate Straddles(s: Server, e: Event) {
    && e.Refresh? && e.health == Answers && e.token in s.signed && e.token.jti.Some? && e.token.exp.Some?
    && e.token.sub in s.epochs && Tv(e.token) == s.epochs[e.token.sub]
    && var key, expiry := JtiKey(e.token.jti.value), e.token.exp.value * 1000;
    key in s.deny && e.at < expiry <= s.deny[key] <= e.end
  }

  /** The store is asked before the token that passed the signature check expires, as when both happen at once. */
  predicate Prompt(e: Event) {
    e.Refresh? && e.token.exp.Some? && e.at / 1000 < e.token.exp.value ==> e.end / 1000 < e.token.exp.value
  }

  // ---- the simulation ----------------------------------------------------------------------------------

  predicate UniqueIds(s: Server) {
    forall c, d :: c in s.signed && d in s.signed && c.jti.Some? && c.jti == d.jti ==> c == d
  }

  predicate WellFormed(s: Server) {
    && UniqueIds(s)
    && (forall c :: c in s.signed ==> c.sub in s.epochs && Tv(c) <= s.epochs[c.sub])
    && (forall key :: key in s.deny ==> exists c :: c in s.signed && c.jti.Some? && JtiKey(c.jti.value) == key)
  }

  /** The server rejects the token from `now` on, for a reason that never goes away. */
  predicate Dead(s: Server, c: Claims, now: Instant) {
    && c in s.signed && c.sub in s.epochs
    && (|| Tv(c) < s.epochs[c.sub]
        || (c.exp.Some? && c.exp.value * 1000 <= now)
        || EntryCovers(s, c))
  }

  /** A denylist entry that lasts at least as long as the token. */
  predicate EntryCovers(s: Server, c: Claims) {
    c.exp.Some? && c.jti.Some? && JtiKey(c.jti.value) in s.deny && c.exp.value * 1000 <= s.deny[JtiKey(c.jti.value)]
  }

  /** Whatever an epoch rejects was revoked; whatever has an entry was revoked or lost its logout's reply. */
  predicate Remembered(s: Server, revoked: set<Claims>, lost: set<Claims>) {
    && (forall c :: c in s.signed && c.jti.Some? && c.sub in s.epochs && Tv(c) < s.epochs[c.sub] ==> c in revoked)
    && (forall c :: c in s.signed && c.jti.Some? && JtiKey(c.jti.value) in s.deny ==> c in revoked + lost)
  }

  /** The entry of a signed token ends less than a second after the token. */
  predicate EntriesEndWithTokens(s: Server) {
    forall c :: c in s.signed && c.jti.Some? && c.exp.Some? && JtiKey(c.jti.value) in s.deny ==>
                  s.deny[JtiKey(c.jti.value)] < c.exp.value * 1000 + 1000
  }

  lemma StepKeepsWellFormed(s: Server, e: Event)
    requires WellFormed(s) && forall c :: c in s.signed ==> !UsesId(e, c)
    ensures WellFormed(Next(s, e))
  {
    IdsStayUnique(s, e);
    KeysStayJustified(s, e);
    StampsStayBelowEpochs(s, e);
  }

  lemma IdsStayUnique(s: Server, e: Event)
    requires UniqueIds(s) && forall c :: c in s.signed ==> !UsesId(e, c)
    ensures UniqueIds(Next(s, e))
  {
    var n := Next(s, e);
    forall c, d | c in n.signed && d in n.signed && c.jti.Some? && c.jti == d.jti ensures c == d {
      if c in s.signed && d in s.signed {
        assert UniqueIds(s);
      }
    }
  }

  lemma KeysStayJustified(s: Server, e: Event)
    requires WellFormed(s)
    ensures forall key :: key in Next(s, e).deny ==>
              exists c :: c in Next(s, e).signed && c.jti.Some? && JtiKey(c.jti.value) == key
  {
    var n := Next(s, e);
    assert s.signed <= n.signed;
    forall key | key in n.deny
      ensures exists c :: c in n.signed && c.jti.Some? && JtiKey(c.jti.value) == key
    {
      if key in s.deny {
        var c :| c in s.signed && c.jti.Some? && JtiKey(c.jti.value) == key;
        assert c in n.signed;
      } else {
        assert e.token in n.signed && JtiKey(e.token.jti.value) == key;
      }
    }
  }

  lemma StampsStayBelowEpochs(s: Server, e: Event)
    requires WellFormed(s)
    ensures forall c :: c in Next(s, e).signed ==>
              c.sub in Next(s, e).epochs && Tv(c) <= Next(s, e).epochs[c.sub]
  {
    hide UniqueIds, JtiKey;
    forall c | c in Next(s, e).signed
      ensures c.sub in Next(s, e).epochs && Tv(c) <= Next(s, e).epochs[c.sub]
    {
      if c in s.signed {
        assert Tv(c) <= s.epochs[c.sub];
      }
    }
  }

  /** Nothing brings a dead token back: entries are only renewed past the same expiry, epochs only grow. */
  lemma DeadStaysDead(s: Server, e: Event, c: Claims, now: Instant, later: Instant)
    requires WellFormed(s) && Dead(s, c, now) && now <= later
    ensures Dead(Next(s, e), c, later)
  {
    if e.Logout? && Revocable(s, e.token, e.at) && EntryCovers(s, c) {
      EntryOutlivesToken(e.token.exp.value, e.end);
      if JtiKey(e.token.jti.value) == JtiKey(c.jti.value) {
        JtiKeyIsInjective(e.token.jti.value, c.jti.value);
        assert e.token == c;
      }
    }
  }

  /** A successful logout and an epoch raise kill every token they cover. */
  lemma RevocationKills(r: Run, k: nat, c: Claims)
    requires k < |r.events| && WellFormed(r.At(k)) && c in r.NewlyRevoked(k)
    ensures Dead(r.At(k + 1), c, r.Now(k + 1))
  {
    var e := r.events[k];
    if e.Logout? {
      EntryOutlivesToken(e.token.exp.value, e.end);
    }
  }

  /** A dead token is honoured only by a refresh that straddles its expiry and its entry. */
  lemma DeadIsHonouredIffStraddling(s: Server, e: Event, now: Instant)
    requires WellFormed(s) && e.Refresh? && Dead(s, e.token, now) && now <= e.at
    ensures Outcome(s, e).Ok? <==> Straddles(s, e)
  {
    assert Tv(e.token) <= s.epochs[e.token.sub];
  }

  lemma {:induction false} RunWellFormed(r: Run, k: nat)
    requires WellFormed(r.start) && r.FreshIds() && k <= |r.events|
    ensures WellFormed(r.At(k))
  {
    if k > 0 {
      RunWellFormed(r, k - 1);
      StepKeepsWellFormed(r.At(k - 1), r.events[k - 1]);
    }
  }

  lemma {:induction false} RevokedAreDead(r: Run, k: nat, c: Claims)
    requires WellFormed(r.start) && r.FreshIds() && r.Timely() && k <= |r.events| && c in r.Revoked(k)
    ensures Dead(r.At(k), c, r.Now(k))
  {
    if k > 0 {
      hide Dead, WellFormed, Next;
      RunWellFormed(r, k - 1);
      if c in r.Revoked(k - 1) {
        RevokedAreDead(r, k - 1, c);
        DeadStaysDead(r.At(k - 1), r.events[k - 1], c, r.Now(k - 1), r.Now(k));
      } else {
        RevocationKills(r, k - 1, c);
      }
    }
  }

  lemma EntriesStepEndsWithTokens(s: Server, e: Event)
    requires WellFormed(s) && WellFormed(Next(s, e)) && EntriesEndWithTokens(s)
    ensures EntriesEndWithTokens(Next(s, e))
  {
    hide RefreshAnswer, UniqueIds, JtiKey;
    var n := Next(s, e);
    forall c | c in n.signed && c.jti.Some? && c.exp.Some? && JtiKey(c.jti.value) in n.deny
      ensures n.deny[JtiKey(c.jti.value)] < c.exp.value * 1000 + 1000
    {
      var key := JtiKey(c.jti.value);
      if key in s.deny && n.deny[key] == s.deny[key] {
        var d :| d in s.signed && d.jti.Some? && JtiKey(d.jti.value) == key;
        assert d in n.signed by { assert s.signed <= n.signed; }
        KeyNamesOneToken(n, c, d);
      } else {
        KeyNamesOneToken(s, c, e.token);
        EntryOutlivesToken(e.token.exp.value, e.end);
      }
    }
  }

  lemma {:induction false} EntriesAlwaysEndWithTokens(r: Run, k: nat)
    requires WellFormed(r.start) && r.start.deny == map[] && r.FreshIds() && k <= |r.events|
    ensures EntriesEndWithTokens(r.At(k))
  {
    if k > 0 {
      hide WellFormed, Next, EntriesEndWithTokens;
      EntriesAlwaysEndWithTokens(r, k - 1);
      RunWellFormed(r, k - 1);
      RunWellFormed(r, k);
      EntriesStepEndsWithTokens(r.At(k - 1), r.events[k - 1]);
    }
  }

  /**
   Once revoked, whatever the stores did since, a token is refused at every later time, unless the
   refresh straddles the moment its entry goes, which is less than a second past its expiry. The
   exception is exact: such a refresh is honoured.
   */
  lemma NoResurrection(r: Run, k: nat)
    requires WellFormed(r.start) && r.start.deny == map[] && r.FreshIds() && r.Timely() && k < |r.events|
    requires r.events[k].Refresh? && r.events[k].token in r.Revoked(k)
    ensures r.OutcomeOf(k).Ok? <==> Straddles(r.At(k), r.events[k])
    ensures r.OutcomeOf(k).Ok? ==>
              var c := r.events[k].token;
              c.exp.value * 1000 <= r.At(k).deny[JtiKey(c.jti.value)] < c.exp.value * 1000 + 1000
  {
    hide Dead, WellFormed, Outcome, Next;
    RevokedAreDead(r, k, r.events[k].token);
    RunWellFormed(r, k);
    DeadIsHonouredIffStraddling(r.At(k), r.events[k], r.Now(k));
    EntriesAlwaysEndWithTokens(r, k);
  }

  lemma {:induction false} RevokedGrows(r: Run, i: nat, k: nat)
    requires i <= k <= |r.events|
    ensures r.Revoked(i) <= r.Revoked(k)
  {
    if i < k {
      RevokedGrows(r, i, k - 1);
    }
  }

  /** For the caller of `logout`: after a success, a refresh with that token id is honoured only by straddling. */
  lemma LogoutIsForever(r: Run, i: nat, k: nat)
    requires WellFormed(r.start) && r.start.deny == map[] && r.FreshIds() && r.Timely() && i < k < |r.events|
    requires r.events[i].Logout? && r.OutcomeOf(i).Ok?
    requires r.events[k].Refresh? && r.events[k].token.jti == r.events[i].token.jti
    ensures r.OutcomeOf(k).Ok? <==> Straddles(r.At(k), r.events[k])
  {
    var token := r.events[i].token;
    assert token in r.Revoked(i + 1);
    RevokedGrows(r, i + 1, k);
    if r.events[k].token in r.At(k).signed {
      RunWellFormed(r, k);
      RevokedAreDead(r, k, token);
      assert r.events[k].token == token;
      NoResurrection(r, k);
    }
  }

  /** Two payloads behind the same denylist key are the same token. */
  lemma KeyNamesOneToken(s: Server, c: Claims, d: Claims)
    requires UniqueIds(s) && c in s.signed && d in s.signed && c.jti.Some? && d.jti.Some?
    requires JtiKey(c.jti.value) == JtiKey(d.jti.value)
    ensures c == d
  {
    JtiKeyIsInjective(c.jti.value, d.jti.value);
  }

  lemma DenylistHoldsOnlyRevoked(s: Server, e: Event, revoked: set<Claims>, lost: set<Claims>, c: Claims)
    requires WellFormed(s) && UniqueIds(Next(s, e)) && Remembered(s, revoked, lost)
    requires c in Next(s, e).signed && c.jti.Some? && JtiKey(c.jti.value) in Next(s, e).deny
    ensures c in revoked + RevokedBy(s, e) + (lost + LostBy(e))
  {
    var n, key := Next(s, e), JtiKey(c.jti.value);
    assert !e.Logout? ==> n.deny == s.deny;
    if key in s.deny {
      var d :| d in s.signed && d.jti.Some? && JtiKey(d.jti.value) == key;
      assert d in n.signed by { assert s.signed <= n.signed; }
      KeyNamesOneToken(n, c, d);
    } else {
      assert e.Logout? && n.signed == s.signed;
      KeyNamesOneToken(s, c, e.token);
    }
  }

  lemma EpochsHoldOnlyRevoked(s: Server, e: Event, revoked: set<Claims>, lost: set<Claims>, c: Claims)
    requires WellFormed(s) && Remembered(s, revoked, lost)
    requires c in Next(s, e).signed && c.jti.Some? && c.sub in Next(s, e).epochs && Tv(c) < Next(s, e).epochs[c.sub]
    ensures c in revoked + RevokedBy(s, e)
  {
  }

  lemma RememberedStep(s: Server, e: Event, revoked: set<Claims>, lost: set<Claims>)
    requires WellFormed(s) && WellFormed(Next(s, e)) && Remembered(s, revoked, lost)
    ensures Remembered(Next(s, e), revoked + RevokedBy(s, e), lost + LostBy(e))
  {
    var n := Next(s, e);
    forall c | c in n.signed && c.jti.Some? && JtiKey(c.jti.value) in n.deny
      ensures c in revoked + RevokedBy(s, e) + (lost + LostBy(e))
    {
      DenylistHoldsOnlyRevoked(s, e, revoked, lost, c);
    }
    forall c | c in n.signed && c.jti.Some? && c.sub in n.epochs && Tv(c) < n.epochs[c.sub]
      ensures c in revoked + RevokedBy(s, e)
    {
      EpochsHoldOnlyRevoked(s, e, revoked, lost, c);
    }
  }

  /** The epochs reject nothing that was not revoked; the denylist only what was, or what a lost reply hid. */
  lemma {:induction false} StoresHoldOnlyRevoked(r: Run, k: nat)
    requires WellFormed(r.start) && r.start.deny == map[] && r.FreshIds() && k <= |r.events|
    ensures Remembered(r.At(k), r.Revoked(k), r.Lost(k))
  {
    if k > 0 {
      hide Remembered, WellFormed, Next, RevokedBy, LostBy;
      StoresHoldOnlyRevoked(r, k - 1);
      RunWellFormed(r, k - 1);
      RunWellFormed(r, k);
      RememberedStep(r.At(k - 1), r.events[k - 1], r.Revoked(k - 1), r.Lost(k - 1));
    }
  }

  // ---- the refinement ------------------------------------------------------------------------------------

  /** The answer of the server that remembers, to the `k`-th event. */
  function Ideal(r: Run, k: nat): Answer
    requires k < |r.events| && r.events[k].Refresh?
  {
    IdealAnswer(r.At(k).epochs.Keys, r.At(k).signed, r.Revoked(k), r.events[k])
  }

  /** The ideal server would honour the token, but an entry stands in the way. */
  predicate HiddenLogout(r: Run, k: nat)
    requires k < |r.events| && r.events[k].Refresh?
  {
    Ideal(r, k).Ok? && Denied(r.At(k).deny, r.events[k].token.jti.value, r.events[k].end)
  }

  /**
   The refinement: over every run, `refreshToken` answers exactly as a server that remembers every
   revoked token forever, although its own memory is a decaying denylist and an integer. It
   differs in two cases and no other: it honours a revoked token that straddles its expiry, and it
   refuses one whose logout took effect with the reply lost.
   */
  lemma RefreshAnswersLikeIdeal(r: Run, k: nat)
    requires WellFormed(r.start) && r.start.deny == map[] && r.FreshIds() && r.Timely() && k < |r.events|
    requires r.events[k].Refresh?
    ensures r.OutcomeOf(k) == Ideal(r, k)
            <==> !(r.events[k].token in r.Revoked(k) && Straddles(r.At(k), r.events[k])) && !HiddenLogout(r, k)
    ensures HiddenLogout(r, k) ==> r.events[k].token in r.Lost(k)
  {
    var s, e := r.At(k), r.events[k];
    StoresHoldOnlyRevoked(r, k);
    RunWellFormed(r, k);
    if e.token in r.Revoked(k) {
      NoResurrection(r, k);
    }
  }

  /** A refresh that checks and asks at once answers as the ideal server, unless its logout's reply was lost. */
  lemma PromptRefreshIsIdeal(r: Run, k: nat)
    requires WellFormed(r.start) && r.start.deny == map[] && r.FreshIds() && r.Timely() && k < |r.events|
    requires r.events[k].Refresh? && Prompt(r.events[k]) && r.events[k].token !in r.Lost(k)
    ensures r.OutcomeOf(k) == Ideal(r, k)
  {
    RefreshAnswersLikeIdeal(r, k);
  }

  // ---- revoke-all ----------------------------------------------------------------------------------------

  lemma {:induction false} EpochStaysAbove(r: Run, i: nat, k: nat, c: Claims)
    requires i <= k <= |r.events| && c.sub in r.At(i).epochs && Tv(c) < r.At(i).epochs[c.sub]
    ensures c.sub in r.At(k).epochs && Tv(c) < r.At(k).epochs[c.sub]
    decreases k - i
  {
    if i < k {
      EpochStaysAbove(r, i, k - 1, c);
    }
  }

  /** After a revoke-all, no token of the user signed before it is ever honoured again, straddling or not. */
  lemma RevokeAllEndsSessions(r: Run, i: nat, k: nat)
    requires WellFormed(r.start) && r.FreshIds() && i < k < |r.events|
    requires r.events[i].RevokeAll? && r.events[k].Refresh?
    requires r.events[k].token in r.At(i).signed && r.events[k].token.sub == r.events[i].sub
    ensures r.OutcomeOf(k).Err?
  {
    var c := r.events[k].token;
    RunWellFormed(r, i);
    assert c.sub in r.At(i).epochs && Tv(c) <= r.At(i).epochs[c.sub];
    EpochStaysAbove(r, i + 1, k, c);
  }

  // ---- sessions live until something ends them ------------------------------------------------------------

  /** Signed, stamped with the current epoch, and without an entry. */
  predicate Alive(s: Server, c: Claims) {
    && c in s.signed && c.jti.Some? && c.sub in s.epochs && Tv(c) == s.epochs[c.sub]
    && JtiKey(c.jti.value) !in s.deny
  }

  lemma AliveStep(s: Server, e: Event, c: Claims)
    requires WellFormed(s) && Alive(s, c)
    requires !(e.Logout? && e.token == c) && !(e.RevokeAll? && e.sub == c.sub)
    ensures Alive(Next(s, e), c)
  {
    if e.Logout? && Revocable(s, e.token, e.at) && JtiKey(e.token.jti.value) == JtiKey(c.jti.value) {
      KeyNamesOneToken(s, c, e.token);
    }
  }

  lemma {:induction false} AliveStays(r: Run, i: nat, k: nat, c: Claims)
    requires WellFormed(r.start) && r.FreshIds() && i <= k <= |r.events| && Alive(r.At(i), c)
    requires forall n :: i <= n < k ==> !(r.events[n].Logout? && r.events[n].token == c)
                                        && !(r.events[n].RevokeAll? && r.events[n].sub == c.sub)
    ensures Alive(r.At(k), c)
    decreases k - i
  {
    if i < k {
      hide Alive, WellFormed, Next;
      AliveStays(r, i, k - 1, c);
      RunWellFormed(r, k - 1);
      AliveStep(r.At(k - 1), r.events[k - 1], c);
    }
  }

  /** The refresh token a sign-in answers: an id, the user's epoch, and seven days. */
  function SignInToken(s: Server, e: Event): Claims
    requires e.SignIn? && e.sub in s.epochs
  {
    Claims(e.sub, Some(e.freshJti), Some(s.epochs[e.sub]), Some(e.end / 1000 + 7 * 24 * 60 * 60))
  }

  /**
   Every sign-in of a user opens a session, and its token is honoured by every refresh within seven
   days whose store answers, until the token is logged out or the user's epoch is raised.
   */
  lemma SignInIsHonoured(r: Run, i: nat, k: nat)
    requires WellFormed(r.start) && r.FreshIds() && i < k < |r.events|
    requires r.events[i].SignIn? && r.events[i].sub in r.At(i).epochs
    requires var c := SignInToken(r.At(i), r.events[i]);
             && r.events[k].Refresh? && r.events[k].token == c && r.events[k].health == Answers
             && r.events[k].at < c.exp.value * 1000 && LeftToExpire(r, i, k, c)
    ensures r.OutcomeOf(i) == Ok(()) && r.OutcomeOf(k) == Ok(())
  {
    var c := SignInToken(r.At(i), r.events[i]);
    RunWellFormed(r, i);
    NewTokenIsAlive(r.At(i), r.events[i]);
    AliveStays(r, i + 1, k, c);
  }

  lemma NewTokenIsAlive(s: Server, e: Event)
    requires WellFormed(s) && e.SignIn? && e.sub in s.epochs && forall c :: c in s.signed ==> !UsesId(e, c)
    ensures Alive(Next(s, e), SignInToken(s, e))
  {
    var key := JtiKey(e.freshJti);
    if key in s.deny {
      var d :| d in s.signed && d.jti.Some? && JtiKey(d.jti.value) == key;
      JtiKeyIsInjective(d.jti.value, e.freshJti);
    }
  }

  /**
   A logout of a signed, unexpired refresh token always succeeds while the store answers, and from
   then on the token is honoured only by straddling.
   */
  lemma LogoutTakesEffect(r: Run, i: nat, k: nat)
    requires WellFormed(r.start) && r.start.deny == map[] && r.FreshIds() && r.Timely() && i < k < |r.events|
    requires var out := r.events[i];
             && out.Logout? && out.health == Answers && out.token in r.At(i).signed
             && out.token.jti.Some? && out.token.exp.Some? && out.at < out.token.exp.value * 1000
    requires r.events[k].Refresh? && r.events[k].token.jti == r.events[i].token.jti
    ensures r.OutcomeOf(i) == Ok(()) && (r.OutcomeOf(k).Ok? <==> Straddles(r.At(k), r.events[k]))
  {
    assert r.OutcomeOf(i) == Ok(());
    LogoutIsForever(r, i, k);
  }

  // ---- where the promise ends --------------------------------------------------------------------------

  /** Between the events `i` and `k` the token is not logged out again and its user's epoch is not raised. */
  predicate LeftToExpire(r: Run, i: nat, k: nat, c: Claims)
    requires k <= |r.events|
  {
    forall n :: i < n < k ==> !(r.events[n].Logout? && r.events[n].token == c)
                              && !(r.events[n].RevokeAll? && r.events[n].sub == c.sub)
  }

  /** The token is signed, stamped with its user's epoch, and its entry ends at `deadline`. */
  predicate EntryAt(s: Server, c: Claims, epoch: nat, deadline: Instant) {
    && c in s.signed && c.jti.Some? && c.sub in s.epochs && s.epochs[c.sub] == epoch
    && JtiKey(c.jti.value) in s.deny && s.deny[JtiKey(c.jti.value)] == deadline
  }

  lemma EntryAtStep(s: Server, e: Event, c: Claims, epoch: nat, deadline: Instant)
    requires WellFormed(s) && EntryAt(s, c, epoch, deadline)
    requires !(e.Logout? && e.token == c) && !(e.RevokeAll? && e.sub == c.sub)
    ensures EntryAt(Next(s, e), c, epoch, deadline)
  {
    if e.Logout? && Revocable(s, e.token, e.at) && JtiKey(e.token.jti.value) == JtiKey(c.jti.value) {
      KeyNamesOneToken(s, c, e.token);
    }
  }

  lemma {:induction false} EntryStays(r: Run, i: nat, k: nat, c: Claims, epoch: nat, deadline: Instant)
    requires WellFormed(r.start) && r.FreshIds() && i < k <= |r.events| && LeftToExpire(r, i, k, c)
    requires EntryAt(r.At(i + 1), c, epoch, deadline)
    ensures EntryAt(r.At(k), c, epoch, deadline)
    decreases k
  {
    if k > i + 1 {
      hide EntryAt, WellFormed, Next;
      EntryStays(r, i, k - 1, c, epoch, deadline);
      RunWellFormed(r, k - 1);
      EntryAtStep(r.At(k - 1), r.events[k - 1], c, epoch, deadline);
    }
  }

  /**
   The exact condition in the caller's terms: after a stored logout and any events that neither log
   the token out again nor raise its user's epoch, a refresh of it is honoured exactly when the
   store answers, the stamp was current, the signature check precedes the expiry, and the lookup
   follows the logout by its rounded-up remaining life or more.
   */
  lemma StraddlingRefresh(r: Run, i: nat, k: nat)
    requires WellFormed(r.start) && r.start.deny == map[] && r.FreshIds() && r.Timely() && i < k < |r.events|
    requires var out := r.events[i];
             && out.Logout? && out.health == Answers && r.OutcomeOf(i).Ok? && out.end < out.token.exp.value * 1000
             && LeftToExpire(r, i, k, out.token) && r.events[k].Refresh? && r.events[k].token == out.token
    ensures var out, e := r.events[i], r.events[k];
            var deadline := out.end + TtlSeconds(out.token.exp.value, out.end) * 1000;
            && out.token.exp.value * 1000 <= deadline < out.token.exp.value * 1000 + 1000
            && (r.OutcomeOf(k).Ok?
                <==> && e.health == Answers
                     && out.token.sub in r.At(i).epochs && Tv(out.token) == r.At(i).epochs[out.token.sub]
                     && e.at < out.token.exp.value * 1000 && deadline <= e.end)
  {
    var out, c := r.events[i], r.events[i].token;
    var deadline := out.end + TtlSeconds(c.exp.value, out.end) * 1000;
    RunWellFormed(r, i);
    EntryOutlivesToken(c.exp.value, out.end);
    assert EntryAt(r.At(i + 1), c, r.At(i).epochs[c.sub], deadline);
    hide WellFormed, Next, Outcome;
    EntryStays(r, i, k, c, r.At(i).epochs[c.sub], deadline);
    LogoutIsForever(r, i, k);
  }

  /** For instance: a token expiring at 10 s, logged out at 0.5 s, is honoured by a refresh from 9.999 s to 10.5 s. */
  lemma StraddlingHappens()
    ensures var token := Claims("u", Some("j"), Some(0), Some(10));
            var s := Server(map["u" := 0], {token}, map[]);
            var out := Logout(token, 500, 500, Answers);
            Outcome(s, out).Ok? && Outcome(Next(s, out), Refresh(token, 9999, 10500, "k", Answers)).Ok?
  {
    assert JtiKey("j") == "revoked:refresh:j";
  }

  /** For instance: a logout reported as failed was in force, and the token is refused a moment later. */
  lemma HiddenLogoutHappens()
    ensures var token := Claims("u", Some("j"), Some(0), Some(10));
            var r := Run(0, Server(map["u" := 0], {token}, map[]),
                         [Logout(token, 500, 500, AppliesThenSilent), Refresh(token, 600, 600, "k", Answers)]);
            && r.OutcomeOf(0) == Err(StoreFailure) && token in r.Lost(1)
            && HiddenLogout(r, 1) && r.OutcomeOf(1) == Err(InvalidRefreshToken)
  {
    var token := Claims("u", Some("j"), Some(0), Some(10));
    var s := Server(map["u" := 0], {token}, map[]);
    var out, e := Logout(token, 500, 500, AppliesThenSilent), Refresh(token, 600, 600, "k", Answers);
    var r := Run(0, s, [out, e]);
    assert r.At(0) == s && r.events[0] == out && r.events[1] == e;
    assert r.At(1) == Next(s, out) && r.Revoked(0) == {} && r.Revoked(1) == {};
  }
}
