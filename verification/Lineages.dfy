/**
 Logins, refreshes and logouts that are in flight while the epoch is raised. A login or refresh is
 split into the check and read of the user document and the later lookup and signature, and the
 steps of all requests interleave freely.
 */
module Lineages {
  import opened Prelude
  import opened UserRecord
  import Sessions

  type Jti = Sessions.Jti
  type Op = nat

  /** A signed refresh token: its stamp and expiry, the token it was exchanged for, the step whose read stamped it. */
  datatype Signed = Signed(sub: UserId, tv: nat, exp: int, parent: Option<Jti>, readAt: nat)

  /** A request between its read of the document and its signature; a refresh was checked at `checked`. */
  datatype Flight = Flight(sub: UserId, seen: nat, exchanged: Option<Jti>, checked: Instant, readAt: nat)

  /** Epochs, signed tokens, requests in flight, and each denylist entry's deadline. */
  datatype State =
    State(epochs: map<UserId, nat>, tokens: map<Jti, Signed>, flights: map<Op, Flight>, deny: map<Jti, Instant>)

  datatype Step =
    | LoginReads(op: Op, sub: UserId, at: Instant)
    | RefreshReads(op: Op, token: Jti, at: Instant)
    | Signs(op: Op, freshJti: Jti, at: Instant, health: Sessions.Health)
    | LogsOut(token: Jti, checked: Instant, at: Instant, health: Sessions.Health)
    | Raise(sub: UserId, at: Instant)

  predicate Unexpired(token: Signed, now: Instant) {
    now / 1000 < token.exp
  }

  predicate Denied(s: State, token: Jti, now: Instant) {
    token in s.deny && now < s.deny[token]
  }

  /** The check of `refreshToken`: the store answers, no live entry, not stamped before the epoch that was read. */
  predicate Honoured(s: State, f: Flight, now: Instant, health: Sessions.Health) {
    f.exchanged.Some? ==>
      && health == Sessions.Answers && f.exchanged.value in s.tokens
      && !Denied(s, f.exchanged.value, now) && !(s.tokens[f.exchanged.value].tv < f.seen)
  }

  predicate Accepts(s: State, step: Step) {
    step.Signs? && step.op in s.flights && Honoured(s, s.flights[step.op], step.at, step.health)
  }

  /** `logout` reports success: the token verifies, and its entry is stored or no longer needed. */
  predicate LogoutSucceeds(s: State, step: Step) {
    && step.LogsOut? && step.token in s.tokens && Unexpired(s.tokens[step.token], step.checked)
    && (step.health == Sessions.Answers || Sessions.TtlSeconds(s.tokens[step.token].exp, step.at) < 1)
  }

  function AfterLogout(s: State, step: Step): State
    requires step.LogsOut?
  {
    if step.token !in s.tokens || !Unexpired(s.tokens[step.token], step.checked) then s
    else
      var ttl := Sessions.TtlSeconds(s.tokens[step.token].exp, step.at);
      if ttl < 1 || step.health == Sessions.Silent then s
      else s.(deny := s.deny[step.token := step.at + ttl * 1000])
  }

  /** The effect of the step numbered `now`. */
  function Next(s: State, step: Step, now: nat): State {
    match step
    case LoginReads(op, sub, at) =>
      if sub in s.epochs && op !in s.flights then
        s.(flights := s.flights[op := Flight(sub, s.epochs[sub], None, at, now)])
      else s
    case RefreshReads(op, token, at) =>
      if token in s.tokens && Unexpired(s.tokens[token], at) && s.tokens[token].sub in s.epochs && op !in s.flights then
        var sub := s.tokens[token].sub;
        s.(flights := s.flights[op := Flight(sub, s.epochs[sub], Some(token), at, now)])
      else s
    case Signs(op, jti, at, _) =>
      if op !in s.flights then s
      else
        var f := s.flights[op];
        var rest := s.(flights := s.flights - {op});
        if Accepts(s, step) then
          var exp := at / 1000 + Sessions.REFRESH_TTL_SECONDS;
          rest.(tokens := s.tokens[jti := Signed(f.sub, f.seen, exp, f.exchanged, f.readAt)])
        else rest
    case LogsOut(_, _, _, _) => AfterLogout(s, step)
    case Raise(sub, _) =>
      if sub in s.epochs then s.(epochs := s.epochs[sub := s.epochs[sub] + 1]) else s
  }

  datatype Trace = Trace(users: map<UserId, nat>, steps: seq<Step>) {

    function At(k: nat): State
      requires k <= |steps|
    {
      if k == 0 then State(users, map[], map[], map[]) else Next(At(k - 1), steps[k - 1], k - 1)
    }

    predicate FreshIds() {
      forall k :: 0 <= k < |steps| && steps[k].Signs? ==> steps[k].freshJti !in At(k).tokens
    }

    /** The clock never goes back. */
    predicate Timely() {
      forall i, j :: 0 <= i < j < |steps| ==> steps[i].at <= steps[j].at
    }

    predicate RaisesAt(sub: UserId, k: nat) {
      k < |steps| && steps[k].Raise? && steps[k].sub == sub
    }

    /** The user's epoch is raised by one of the steps `i..j`. */
    predicate RaisedBetween(sub: UserId, i: nat, j: nat)
    {
      exists k :: i <= k < j && RaisesAt(sub, k)
    }
  }

  // ---- epochs ------------------------------------------------------------------------------------

  lemma RaisedSnoc(t: Trace, sub: UserId, i: nat, j: nat)
    requires i < j <= |t.steps|
    ensures t.RaisedBetween(sub, i, j) <==> t.RaisedBetween(sub, i, j - 1) || t.RaisesAt(sub, j - 1)
  {
    if t.RaisedBetween(sub, i, j - 1) {
      var k :| i <= k < j - 1 && t.RaisesAt(sub, k);
      assert i <= k < j && t.RaisesAt(sub, k);
    }
  }

  /** Users stay, and an epoch moves between two steps exactly when it is raised between them. */
  lemma {:induction false} EpochsOnlyGrow(t: Trace, sub: UserId, i: nat, j: nat)
    requires i <= j <= |t.steps| && sub in t.At(i).epochs
    ensures sub in t.At(j).epochs && t.At(i).epochs[sub] <= t.At(j).epochs[sub]
    ensures t.At(i).epochs[sub] < t.At(j).epochs[sub] <==> t.RaisedBetween(sub, i, j)
    decreases j - i
  {
    if i < j {
      EpochsOnlyGrow(t, sub, i, j - 1);
      RaisedSnoc(t, sub, i, j);
    }
  }

  // ---- what every reachable state satisfies ------------------------------------------------------------

  /** A stamp is the epoch the stamping read saw. */
  predicate StampedBy(t: Trace, k: nat, sub: UserId, stamp: nat, readAt: nat)
    requires k <= |t.steps|
  {
    readAt < k && sub in t.At(readAt).epochs && stamp == t.At(readAt).epochs[sub]
  }

  /** A token never carries a later stamp than the one it was exchanged for, and is read after it. */
  predicate FollowsParent(tokens: map<Jti, Signed>, child: Signed) {
    child.parent.Some? ==>
      && child.parent.value in tokens
      && var p := tokens[child.parent.value];
      p.sub == child.sub && child.tv <= p.tv && p.readAt < child.readAt
  }

  predicate FlightOk(tokens: map<Jti, Signed>, f: Flight) {
    f.exchanged.Some? ==>
      && f.exchanged.value in tokens
      && tokens[f.exchanged.value].sub == f.sub && tokens[f.exchanged.value].readAt < f.readAt
      && Unexpired(tokens[f.exchanged.value], f.checked)
  }

  predicate Stamped(t: Trace, k: nat)
    requires k <= |t.steps|
  {
    var s := t.At(k);
    && (forall j :: j in s.tokens ==> StampedBy(t, k, s.tokens[j].sub, s.tokens[j].tv, s.tokens[j].readAt))
    && (forall o :: o in s.flights ==> StampedBy(t, k, s.flights[o].sub, s.flights[o].seen, s.flights[o].readAt))
  }

  predicate Linked(s: State) {
    && (forall j :: j in s.tokens ==> FollowsParent(s.tokens, s.tokens[j]))
    && (forall o :: o in s.flights ==> FlightOk(s.tokens, s.flights[o]))
  }

  /** A step adds at most the token and the flight it names; everything else is as before. */
  lemma StepAdds(s: State, step: Step, now: nat)
    ensures var n := Next(s, step, now);
            && (forall j :: j in n.tokens ==>
                  || (j in s.tokens && n.tokens[j] == s.tokens[j])
                  || (&& step.Signs? && step.op in s.flights
                      && var f := s.flights[step.op]; var c := n.tokens[j];
                      c.sub == f.sub && c.tv == f.seen && c.readAt == f.readAt))
            && (forall o :: o in n.flights ==>
                  || (o in s.flights && n.flights[o] == s.flights[o])
                  || (&& var f := n.flights[o];
                      f.readAt == now && f.sub in s.epochs && f.seen == s.epochs[f.sub]))
  {
  }

  lemma TokenStampedStep(t: Trace, k: nat, j: Jti)
    requires k < |t.steps| && Stamped(t, k) && j in t.At(k + 1).tokens
    ensures var c := t.At(k + 1).tokens[j]; StampedBy(t, k + 1, c.sub, c.tv, c.readAt)
  {
    StepAdds(t.At(k), t.steps[k], k);
    assert t.At(k + 1) == Next(t.At(k), t.steps[k], k);
    hide Next, Trace.At;
  }

  lemma FlightStampedStep(t: Trace, k: nat, o: Op)
    requires k < |t.steps| && Stamped(t, k) && o in t.At(k + 1).flights
    ensures var f := t.At(k + 1).flights[o]; StampedBy(t, k + 1, f.sub, f.seen, f.readAt)
  {
    StepAdds(t.At(k), t.steps[k], k);
    assert t.At(k + 1) == Next(t.At(k), t.steps[k], k);
    hide Next, Trace.At;
  }

  lemma {:induction false} AlwaysStamped(t: Trace, k: nat)
    requires k <= |t.steps|
    ensures Stamped(t, k)
  {
    if k > 0 {
      AlwaysStamped(t, k - 1);
      hide StampedBy, Next, Trace.At;
      forall j | j in t.At(k).tokens
        ensures StampedBy(t, k, t.At(k).tokens[j].sub, t.At(k).tokens[j].tv, t.At(k).tokens[j].readAt)
      {
        TokenStampedStep(t, k - 1, j);
      }
      forall o | o in t.At(k).flights
        ensures StampedBy(t, k, t.At(k).flights[o].sub, t.At(k).flights[o].seen, t.At(k).flights[o].readAt)
      {
        FlightStampedStep(t, k - 1, o);
      }
    }
  }

  lemma LinkedStep(s: State, step: Step, now: nat)
    requires Linked(s) && (step.Signs? ==> step.freshJti !in s.tokens)
    requires forall j :: j in s.tokens ==> s.tokens[j].readAt < now
    ensures Linked(Next(s, step, now))
  {
    var n := Next(s, step, now);
    forall j | j in n.tokens
      ensures FollowsParent(n.tokens, n.tokens[j])
    {
      if j in s.tokens {
        assert FollowsParent(s.tokens, s.tokens[j]);
      } else {
        assert FlightOk(s.tokens, s.flights[step.op]);
      }
    }
    forall o | o in n.flights
      ensures FlightOk(n.tokens, n.flights[o])
    {
      if o in s.flights {
        assert FlightOk(s.tokens, s.flights[o]);
      }
    }
  }

  lemma TokensReadEarlier(t: Trace, k: nat)
    requires k <= |t.steps|
    ensures forall j :: j in t.At(k).tokens ==> t.At(k).tokens[j].readAt < k
  {
    AlwaysStamped(t, k);
  }

  lemma {:induction false} AlwaysLinked(t: Trace, k: nat)
    requires t.FreshIds() && k <= |t.steps|
    ensures Linked(t.At(k))
  {
    if k > 0 {
      AlwaysLinked(t, k - 1);
      TokensReadEarlier(t, k - 1);
      assert t.steps[k - 1].Signs? ==> t.steps[k - 1].freshJti !in t.At(k - 1).tokens;
      LinkedStep(t.At(k - 1), t.steps[k - 1], k - 1);
    }
  }

  /** Tokens are never withdrawn or altered. */
  lemma {:induction false} TokensStay(t: Trace, i: nat, k: nat, j: Jti)
    requires t.FreshIds() && i <= k <= |t.steps| && j in t.At(i).tokens
    ensures j in t.At(k).tokens && t.At(k).tokens[j] == t.At(i).tokens[j]
    decreases k - i
  {
    if i < k {
      TokensStay(t, i, k - 1, j);
      assert t.steps[k - 1].Signs? ==> t.steps[k - 1].freshJti !in t.At(k - 1).tokens;
    }
  }

  // ---- the theorems ----------------------------------------------------------------------------------

  /** `ts` is a lineage: each token was obtained by exchanging the one before it. */
  predicate Lineage(tokens: map<Jti, Signed>, ts: seq<Jti>) {
    && ts != []
    && (forall i :: 0 <= i < |ts| ==> ts[i] in tokens)
    && (forall i :: 0 < i < |ts| ==> tokens[ts[i]].parent == Some(ts[i - 1]))
  }

  lemma {:induction false} LineageStampsNeverRise(s: State, ts: seq<Jti>)
    requires Linked(s) && Lineage(s.tokens, ts)
    ensures var root, leaf := s.tokens[ts[0]], s.tokens[ts[|ts| - 1]];
            leaf.sub == root.sub && leaf.tv <= root.tv && root.readAt <= leaf.readAt
  {
    if |ts| > 1 {
      var rest := ts[..|ts| - 1];
      LineageStampsNeverRise(s, rest);
      assert FollowsParent(s.tokens, s.tokens[ts[|ts| - 1]]);
    }
  }

  /**
   When a refresh that exchanges the last token of a lineage comes to its lookup, it is honoured
   exactly when the store answers, the token has no live entry, and the user's epoch was not raised
   between the read that stamped the very first token and this refresh's own read.
   */
  lemma HonouredIffNoRaiseSinceRoot(t: Trace, k: nat, ts: seq<Jti>)
    requires t.FreshIds() && k < |t.steps| && t.steps[k].Signs? && t.steps[k].op in t.At(k).flights
    requires Lineage(t.At(k).tokens, ts)
    requires t.At(k).flights[t.steps[k].op].exchanged == Some(ts[|ts| - 1])
    ensures var f, root := t.At(k).flights[t.steps[k].op], t.At(k).tokens[ts[0]];
            Accepts(t.At(k), t.steps[k])
            <==> && t.steps[k].health == Sessions.Answers
                 && !Denied(t.At(k), ts[|ts| - 1], t.steps[k].at)
                 && !t.RaisedBetween(root.sub, root.readAt, f.readAt)
  {
    AlwaysStamped(t, k);
    AlwaysLinked(t, k);
    LineageStampsNeverRise(t.At(k), ts);
    var s := t.At(k);
    var f, root, leaf := s.flights[t.steps[k].op], s.tokens[ts[0]], s.tokens[ts[|ts| - 1]];
    assert StampedBy(t, k, root.sub, root.tv, root.readAt);
    assert StampedBy(t, k, leaf.sub, leaf.tv, leaf.readAt);
    assert StampedBy(t, k, f.sub, f.seen, f.readAt) && FlightOk(s.tokens, f);
    EpochsOnlyGrow(t, root.sub, root.readAt, leaf.readAt);
    EpochsOnlyGrow(t, root.sub, leaf.readAt, f.readAt);
    EpochsOnlyGrow(t, root.sub, root.readAt, f.readAt);
  }

  /**
   After the epoch is raised at step `b`, no token of a lineage whose first token was signed
   before it, or was signed by a request that read the document before it, is honoured by a
   refresh that reads the document after it.
   */
  lemma LineagesDie(t: Trace, b: nat, k: nat, ts: seq<Jti>)
    requires t.FreshIds() && b < k < |t.steps| && t.steps[k].Signs? && t.steps[k].op in t.At(k).flights
    requires Lineage(t.At(k).tokens, ts)
    requires t.RaisesAt(t.At(k).tokens[ts[0]].sub, b)
    requires ts[0] in t.At(b).tokens || t.At(k).tokens[ts[0]].readAt <= b
    requires var f := t.At(k).flights[t.steps[k].op]; f.exchanged == Some(ts[|ts| - 1]) && b < f.readAt
    ensures !Accepts(t.At(k), t.steps[k])
    ensures t.At(k + 1).tokens == t.At(k).tokens
  {
    if ts[0] in t.At(b).tokens {
      AlwaysStamped(t, b);
      TokensStay(t, b, k, ts[0]);
      assert StampedBy(t, b, t.At(b).tokens[ts[0]].sub, t.At(b).tokens[ts[0]].tv, t.At(b).tokens[ts[0]].readAt);
    }
    HonouredIffNoRaiseSinceRoot(t, k, ts);
  }

  // ---- logout against requests in flight -----------------------------------------------------------------

  /** Every entry is a signed token's, ends at or after the token, and less than a second after it. */
  predicate EntriesFit(s: State) {
    forall j :: j in s.deny ==> j in s.tokens && s.tokens[j].exp * 1000 <= s.deny[j] < s.tokens[j].exp * 1000 + 1000
  }

  lemma EntriesFitStep(s: State, step: Step, now: nat)
    requires EntriesFit(s) && (step.Signs? ==> step.freshJti !in s.tokens)
    ensures EntriesFit(Next(s, step, now))
    ensures forall j :: j in s.deny ==> j in Next(s, step, now).deny
  {
    if step.LogsOut? && step.token in s.tokens {
      Sessions.EntryOutlivesToken(s.tokens[step.token].exp, step.at);
    }
  }

  lemma {:induction false} EntriesAlwaysFit(t: Trace, k: nat)
    requires t.FreshIds() && k <= |t.steps|
    ensures EntriesFit(t.At(k))
  {
    if k > 0 {
      EntriesAlwaysFit(t, k - 1);
      assert t.steps[k - 1].Signs? ==> t.steps[k - 1].freshJti !in t.At(k - 1).tokens;
      EntriesFitStep(t.At(k - 1), t.steps[k - 1], k - 1);
    }
  }

  lemma {:induction false} EntriesStay(t: Trace, i: nat, k: nat, j: Jti)
    requires t.FreshIds() && i <= k <= |t.steps| && j in t.At(i).deny
    ensures j in t.At(k).deny
    decreases k - i
  {
    if i < k {
      EntriesStay(t, i, k - 1, j);
      EntriesAlwaysFit(t, k - 1);
      assert t.steps[k - 1].Signs? ==> t.steps[k - 1].freshJti !in t.At(k - 1).tokens;
      EntriesFitStep(t.At(k - 1), t.steps[k - 1], k - 1);
    }
  }

  lemma LogoutStoresEntry(t: Trace, b: nat)
    requires b < |t.steps| && LogoutSucceeds(t.At(b), t.steps[b])
    ensures t.steps[b].token in t.At(b + 1).deny || t.At(b).tokens[t.steps[b].token].exp * 1000 <= t.steps[b].at
  {
    Sessions.EntryOutlivesToken(t.At(b).tokens[t.steps[b].token].exp, t.steps[b].at);
  }

  /**
   A logout that reported success also reaches the refreshes already in flight, even those that were
   checked and read the user before it. One that exchanges the token is honoured exactly when the store
   answers, the epoch did not rise between the token's read and its own, its check precedes the
   token's expiry, its lookup follows it, and any entry has gone by then.
   */
  lemma LogoutReachesFlights(t: Trace, b: nat, k: nat)
    requires t.FreshIds() && t.Timely() && b < k < |t.steps| && LogoutSucceeds(t.At(b), t.steps[b])
    requires t.steps[k].Signs? && t.steps[k].op in t.At(k).flights
    requires t.At(k).flights[t.steps[k].op].exchanged == Some(t.steps[b].token)
    ensures t.steps[b].token in t.At(k).tokens
    ensures Accepts(t.At(k), t.steps[k])
            <==> var j, s, step := t.steps[b].token, t.At(k), t.steps[k];
                 var f, token := s.flights[step.op], s.tokens[j];
                 && step.health == Sessions.Answers && !t.RaisedBetween(token.sub, token.readAt, f.readAt)
                 && f.checked < token.exp * 1000 <= step.at
                 && (j in s.deny ==> token.exp * 1000 <= s.deny[j] <= step.at)
  {
    var j, f := t.steps[b].token, t.At(k).flights[t.steps[k].op];
    TokensStay(t, b, k, j);
    AlwaysLinked(t, k);
    assert FlightOk(t.At(k).tokens, f);
    LogoutStoresEntry(t, b);
    if j in t.At(b + 1).deny {
      EntriesStay(t, b + 1, k, j);
    }
    EntriesAlwaysFit(t, k);
    HonouredIffNoRaiseSinceRoot(t, k, [j]);
  }

  // ---- what the requests in flight come to -----------------------------------------------------------------

  /** Request `op` is read for at step `i` and next signs at step `k`. */
  predicate SignsNext(t: Trace, i: nat, k: nat, op: Op) {
    && i < k < |t.steps| && t.steps[k].Signs? && t.steps[k].op == op
    && forall m :: i < m < k ==> !(t.steps[m].Signs? && t.steps[m].op == op)
  }

  lemma {:induction false} FlightStays(t: Trace, i: nat, k: nat, op: Op)
    requires i <= k <= |t.steps| && op in t.At(i).flights
    requires forall m :: i <= m < k ==> !(t.steps[m].Signs? && t.steps[m].op == op)
    ensures op in t.At(k).flights && t.At(k).flights[op] == t.At(i).flights[op]
    decreases k - i
  {
    if i < k {
      FlightStays(t, i, k - 1, op);
      assert !(t.steps[k - 1].Signs? && t.steps[k - 1].op == op);
    }
  }

  /** The token that step `k` signs for a request that read at step `i`. */
  predicate SignsToken(t: Trace, i: nat, k: nat, sub: UserId, parent: Option<Jti>)
    requires i < k < |t.steps| && t.steps[k].Signs?
  {
    var step := t.steps[k];
    && sub in t.At(i).epochs
    && step.freshJti in t.At(k + 1).tokens
    && t.At(k + 1).tokens[step.freshJti]
       == Signed(sub, t.At(i).epochs[sub], step.at / 1000 + 7 * 24 * 60 * 60, parent, i)
  }

  /** A login in flight always signs, whatever happens meanwhile, with the epoch its own read saw. */
  lemma LoginSigns(t: Trace, i: nat, k: nat)
    requires i < |t.steps| && t.steps[i].LoginReads? && SignsNext(t, i, k, t.steps[i].op)
    requires t.steps[i].sub in t.At(i).epochs && t.steps[i].op !in t.At(i).flights
    ensures Accepts(t.At(k), t.steps[k]) && SignsToken(t, i, k, t.steps[i].sub, None)
  {
    FlightStays(t, i + 1, k, t.steps[i].op);
  }

  /**
   A refresh in flight signs exactly when the store answers, its token has no live entry and the epoch
   did not rise between the token's read and its own; then it too carries the epoch its read saw.
   */
  lemma RefreshSigns(t: Trace, i: nat, k: nat)
    requires t.FreshIds() && i < |t.steps| && t.steps[i].RefreshReads? && SignsNext(t, i, k, t.steps[i].op)
    requires var s, step := t.At(i), t.steps[i];
             && step.token in s.tokens && Unexpired(s.tokens[step.token], step.at)
             && s.tokens[step.token].sub in s.epochs && step.op !in s.flights
    ensures var token := t.At(i).tokens[t.steps[i].token];
            && (Accepts(t.At(k), t.steps[k])
                <==> && t.steps[k].health == Sessions.Answers
                     && !Denied(t.At(k), t.steps[i].token, t.steps[k].at)
                     && !t.RaisedBetween(token.sub, token.readAt, i))
            && if Accepts(t.At(k), t.steps[k]) then SignsToken(t, i, k, token.sub, Some(t.steps[i].token))
               else t.At(k + 1).tokens == t.At(k).tokens
  {
    var j := t.steps[i].token;
    FlightStays(t, i + 1, k, t.steps[i].op);
    TokensStay(t, i, k, j);
    HonouredIffNoRaiseSinceRoot(t, k, [j]);
  }

  lemma {:induction false} NoEntryWithoutLogout(t: Trace, i: nat, k: nat, j: Jti)
    requires i <= k <= |t.steps| && j !in t.At(i).deny
    requires forall m :: i <= m < k ==> !(t.steps[m].LogsOut? && t.steps[m].token == j)
    ensures j !in t.At(k).deny
    decreases k - i
  {
    if i < k {
      NoEntryWithoutLogout(t, i, k - 1, j);
      assert !(t.steps[k - 1].LogsOut? && t.steps[k - 1].token == j);
    }
  }

  /**
   A session lives until something ends it: a login's token is exchanged by every refresh that is
   checked before its seven days are over and asks a store that answers, if by then neither a logout
   of it has run nor, by the refresh's read, a raise of its user's epoch.
   */
  lemma LoginsAreHonoured(t: Trace, i: nat, k: nat, m: nat, n: nat)
    requires t.FreshIds() && i < |t.steps| && t.steps[i].LoginReads? && SignsNext(t, i, k, t.steps[i].op)
    requires t.steps[i].sub in t.At(i).epochs && t.steps[i].op !in t.At(i).flights
    requires k < m < |t.steps| && t.steps[m].RefreshReads? && t.steps[m].token == t.steps[k].freshJti
    requires t.steps[m].op !in t.At(m).flights && t.steps[m].at / 1000 < t.steps[k].at / 1000 + 7 * 24 * 60 * 60
    requires SignsNext(t, m, n, t.steps[m].op) && t.steps[n].health == Sessions.Answers
    requires forall x :: k < x < n ==> !(t.steps[x].LogsOut? && t.steps[x].token == t.steps[k].freshJti)
    requires !t.RaisedBetween(t.steps[i].sub, i, m)
    ensures Accepts(t.At(n), t.steps[n]) && SignsToken(t, m, n, t.steps[i].sub, Some(t.steps[k].freshJti))
  {
    var sub, j := t.steps[i].sub, t.steps[k].freshJti;
    LoginSigns(t, i, k);
    assert j !in t.At(k).tokens && t.At(k + 1).deny == t.At(k).deny;
    hide Next, Accepts, Trace.At;
    TokensStay(t, k + 1, m, j);
    EpochsOnlyGrow(t, sub, i, m);
    EntriesAlwaysFit(t, k);
    NoEntryWithoutLogout(t, k + 1, n, j);
    RefreshSigns(t, m, n);
  }
}
