/**
 The self-service email change over whole runs: what a revert undoes, and which earlier request
 every check, confirmation and revert is accountable to.
 */
module EmailChangeRuns {
  import opened Prelude
  import opened UserRecord
  import opened Accounts
  import opened AccountRuns
  import CodeGuessing

  // ---- what one request does to the email fields -------------------------------------------

  lemma ConfirmEffect(id: UserId, policy: Policy, u: User, c: Call)
    requires c.request.Confirm?
    ensures var v := Step(id, policy, u, c);
            if Handle(id, policy, u, c).outcome.Err? then v == u
            else && u.pendingEmail == Some(v.email)
                 && v.previousEmail == Some(u.email)
                 && v.revertToken == Some(c.request.freshRevertToken)
                 && v.revertExpires == Some(c.end + REVERT_WINDOW_MS)
                 && v.pendingEmail.None? && v.pendingToken.None? && v.pendingExpires.None?
                 && v.sessionEpoch == u.sessionEpoch + 1
  {
    StepUnrolled(id, policy, u, c);
  }

  lemma RevertEffect(id: UserId, policy: Policy, u: User, c: Call)
    requires c.request.Revert?
    ensures var v := Step(id, policy, u, c);
            if Handle(id, policy, u, c).outcome != Ok(Reverted) then v == u
            else && u.previousEmail == Some(v.email)
                 && v.previousEmail.None? && v.revertToken == u.revertToken && v.revertExpires == u.revertExpires
                 && v.pendingEmail.None? && v.pendingToken.None? && v.pendingExpires.None?
                 && v.sessionEpoch == u.sessionEpoch + 1
  {
    StepUnrolled(id, policy, u, c);
  }

  lemma StageEffect(id: UserId, policy: Policy, u: User, c: Call)
    requires c.request.RequestChange?
    ensures var v := Step(id, policy, u, c);
            && v.email == u.email && v.previousEmail == u.previousEmail
            && v.revertToken == u.revertToken && v.revertExpires == u.revertExpires
            && if Handle(id, policy, u, c).outcome.Err? then SameOn(u, v, EmailFields)
               else && v.pendingEmail == Some(c.request.newEmail)
                    && v.pendingToken == Some(c.request.changeToken)
                    && v.pendingExpires == Some(c.end + CONFIRMATION_TTL_MS)
  {
    if Handle(id, policy, u, c).outcome.Err? {
      LeftAlone(u, Handle(id, policy, u, c).writes, EmailFields);
    } else {
      var clear, stage := ClearCodeWrites(), StageWrite(c.request.newEmail, c.request.changeToken, c.end);
      assert Handle(id, policy, u, c).writes == [clear[0], clear[1], stage];
      StepUnrolled(id, policy, u, c);
    }
  }

  lemma EmailFrame(id: UserId, policy: Policy, u: User, c: Call)
    requires !c.request.Confirm? && !c.request.Revert? && !c.request.RequestChange?
    ensures SameOn(u, Step(id, policy, u, c), EmailFields)
  {
    LeftAlone(u, Handle(id, policy, u, c).writes, EmailFields);
  }

  // ---- the epoch -----------------------------------------------------------------------------

  /** How often a list of writes raises the epoch. */
  function EpochBumps(ws: seq<Write>): nat {
    if ws == [] then 0 else (if ws[0].BumpEpoch? then 1 else 0) + EpochBumps(ws[1..])
  }

  lemma {:induction false} EpochCountsBumps(u: User, ws: seq<Write>)
    ensures ApplyAll(u, ws).sessionEpoch == u.sessionEpoch + EpochBumps(ws)
    decreases |ws|
  {
    if ws != [] {
      EpochCountsBumps(ApplyWrite(u, ws[0]), ws[1..]);
    }
  }

  /** Epoch raises among the requests `i..j`. */
  function RaisesIn(h: History, i: nat, j: nat): nat
    requires i <= j <= |h.calls|
  {
    if i == j then 0
    else RaisesIn(h, i, j - 1) + EpochBumps(Handle(h.id, h.policy, h.At(j - 1), h.calls[j - 1]).writes)
  }

  lemma {:induction false} EpochCountsRaises(h: History, i: nat, j: nat)
    requires i <= j <= |h.calls|
    ensures h.At(j).sessionEpoch == h.At(i).sessionEpoch + RaisesIn(h, i, j)
  {
    if i < j {
      EpochCountsRaises(h, i, j - 1);
      EpochCountsBumps(h.At(j - 1), Handle(h.id, h.policy, h.At(j - 1), h.calls[j - 1]).writes);
    }
  }

  // ---- milestones ----------------------------------------------------------------------------

  datatype Milestone = Issue | Check | Stage | Apply | Undo

  /** The `k`-th request reaches the milestone. */
  predicate Hits(h: History, m: Milestone, k: nat)
    requires k < |h.calls|
  {
    var u, c := h.At(k), h.calls[k];
    match m
    case Issue => c.request.RequestCode? && h.OutcomeOf(k).Ok?
    case Check => CodeGuessing.Compares(u, c) && CodeAccepted(h.id, u, c.at, c.request.proof)
    case Stage => c.request.RequestChange? && h.OutcomeOf(k).Ok?
    case Apply => c.request.Confirm? && h.OutcomeOf(k).Ok?
    case Undo => c.request.Revert? && h.OutcomeOf(k) == Ok(Reverted)
  }

  function Count(h: History, m: Milestone, k: nat): nat
    requires k <= |h.calls|
  {
    if k == 0 then 0 else Count(h, m, k - 1) + if Hits(h, m, k - 1) then 1 else 0
  }

  /** What the `k`-th request does to the email fields, by the milestone it reaches. */
  lemma EmailTransition(h: History, k: nat)
    requires k < |h.calls|
    ensures var u, v, c := h.At(k), h.At(k + 1), h.calls[k];
            && (Hits(h, Apply, k) ==>
                  && u.pendingEmail == Some(v.email) && v.previousEmail == Some(u.email)
                  && v.revertToken == Some(c.request.freshRevertToken)
                  && v.revertExpires == Some(c.end + REVERT_WINDOW_MS)
                  && v.pendingEmail.None? && v.pendingToken.None? && v.pendingExpires.None?)
            && (Hits(h, Undo, k) ==>
                  && u.previousEmail == Some(v.email) && v.previousEmail.None?
                  && v.revertToken == u.revertToken && v.revertExpires == u.revertExpires
                  && v.pendingEmail.None? && v.pendingToken.None? && v.pendingExpires.None?)
            && (Hits(h, Stage, k) ==>
                  && v.email == u.email && v.previousEmail == u.previousEmail
                  && v.revertToken == u.revertToken && v.revertExpires == u.revertExpires
                  && v.pendingEmail == Some(c.request.newEmail) && v.pendingToken == Some(c.request.changeToken)
                  && v.pendingExpires == Some(c.end + CONFIRMATION_TTL_MS))
            && (!Hits(h, Apply, k) && !Hits(h, Undo, k) && !Hits(h, Stage, k) ==> SameOn(u, v, EmailFields))
  {
    var u, c := h.At(k), h.calls[k];
    if c.request.Confirm? {
      ConfirmEffect(h.id, h.policy, u, c);
    } else if c.request.Revert? {
      RevertEffect(h.id, h.policy, u, c);
    } else if c.request.RequestChange? {
      StageEffect(h.id, h.policy, u, c);
    } else {
      EmailFrame(h.id, h.policy, u, c);
    }
  }

  /** The latest request before the `k`-th one that reached the milestone. */
  function Last(h: History, m: Milestone, k: nat): (r: Option<nat>)
    requires k <= |h.calls|
    ensures r.Some? ==> r.value < k
  {
    if k == 0 then None else if Hits(h, m, k - 1) then Some(k - 1) else Last(h, m, k - 1)
  }

  /** Strictly between the requests `n` and `k` the milestone is not reached. */
  predicate NoneSince(h: History, m: Milestone, n: nat, k: nat)
    requires k <= |h.calls|
  {
    forall i :: n < i < k ==> !Hits(h, m, i)
  }

  lemma {:induction false} LastIsLatest(h: History, m: Milestone, k: nat)
    requires k <= |h.calls|
    ensures match Last(h, m, k)
            case Some(n) => Hits(h, m, n) && NoneSince(h, m, n, k)
            case None => forall i :: 0 <= i < k ==> !Hits(h, m, i)
  {
    hide Hits;
    if k > 0 && !Hits(h, m, k - 1) {
      LastIsLatest(h, m, k - 1);
    }
  }

  /** No code, no staged change and nothing to revert: the state of a new account. */
  predicate Blank(u: User) {
    && u.codeHash.None? && u.codeExpires.None?
    && u.pendingEmail.None? && u.pendingToken.None? && u.pendingExpires.None?
    && u.previousEmail.None?
  }

  // ---- every live field is accountable to its latest milestone ------------------------------

  /** A stored code is the one issued last, and it has not been used since. */
  lemma {:induction false} CodeOrigin(h: History, k: nat) returns (n: nat)
    requires Blank(h.start) && k <= |h.calls| && h.At(k).codeHash.Some?
    ensures n < k && Last(h, Issue, k) == Some(n) && Hits(h, Issue, n)
    ensures NoneSince(h, Issue, n, k) && NoneSince(h, Check, n, k)
    ensures h.At(k).codeHash == Some(HashEmailChangeCode(h.calls[n].request.code, h.id))
  {
    var u, c := h.At(k - 1), h.calls[k - 1];
    if c.request.RequestCode? {
      CodeGuessing.IssueEffect(h.id, h.policy, u, c);
    } else if c.request.RequestChange? {
      CodeGuessing.CheckEffect(h.id, h.policy, u, c);
    } else {
      CodeGuessing.CodeFrame(h.id, h.policy, u, c);
    }
    if Hits(h, Issue, k - 1) {
      n := k - 1;
    } else {
      n := CodeOrigin(h, k - 1);
    }
    LastIsLatest(h, Issue, k);
  }

  predicate SamePending(u: User, v: User) {
    v.pendingEmail == u.pendingEmail && v.pendingToken == u.pendingToken && v.pendingExpires == u.pendingExpires
  }

  lemma PendingMoves(h: History, k: nat)
    requires k < |h.calls|
    ensures var v, c := h.At(k + 1), h.calls[k];
            if Hits(h, Stage, k) then
              && !Hits(h, Apply, k) && !Hits(h, Undo, k)
              && v.pendingEmail == Some(c.request.newEmail) && v.pendingToken == Some(c.request.changeToken)
              && v.pendingExpires == Some(c.end + CONFIRMATION_TTL_MS)
            else v.pendingEmail.Some? || v.pendingToken.Some? ==>
              !Hits(h, Apply, k) && !Hits(h, Undo, k) && SamePending(h.At(k), v)
  {
    EmailTransition(h, k);
  }

  predicate SameRevertState(u: User, v: User) {
    && v.email == u.email && v.previousEmail == u.previousEmail
    && v.revertToken == u.revertToken && v.revertExpires == u.revertExpires
  }

  lemma PreviousMoves(h: History, k: nat)
    requires k < |h.calls|
    ensures var u, v, c := h.At(k), h.At(k + 1), h.calls[k];
            if Hits(h, Apply, k) then
              && !Hits(h, Undo, k)
              && v.previousEmail == Some(u.email) && v.revertToken == Some(c.request.freshRevertToken)
              && v.revertExpires == Some(c.end + REVERT_WINDOW_MS)
            else v.previousEmail.Some? ==> !Hits(h, Undo, k) && SameRevertState(u, v)
  {
    EmailTransition(h, k);
  }

  /** A pending change is the one staged last, and it has been neither applied nor discarded since. */
  lemma {:induction false} PendingOrigin(h: History, k: nat) returns (n: nat)
    requires Blank(h.start) && k <= |h.calls| && (h.At(k).pendingEmail.Some? || h.At(k).pendingToken.Some?)
    ensures n < k && Last(h, Stage, k) == Some(n) && Hits(h, Stage, n)
    ensures NoneSince(h, Stage, n, k) && NoneSince(h, Apply, n, k) && NoneSince(h, Undo, n, k)
    ensures h.At(k).pendingEmail == Some(h.calls[n].request.newEmail)
    ensures h.At(k).pendingToken == Some(h.calls[n].request.changeToken)
    ensures h.At(k).pendingExpires == Some(h.calls[n].end + CONFIRMATION_TTL_MS)
  {
    hide Hits;
    PendingMoves(h, k - 1);
    if Hits(h, Stage, k - 1) {
      n := k - 1;
    } else {
      n := PendingOrigin(h, k - 1);
    }
    LastIsLatest(h, Stage, k);
  }

  /** The address a revert would restore is the one the latest applied change replaced. */
  lemma {:induction false} PreviousOrigin(h: History, k: nat) returns (n: nat)
    requires Blank(h.start) && k <= |h.calls| && h.At(k).previousEmail.Some?
    ensures n < k && Last(h, Apply, k) == Some(n) && Hits(h, Apply, n)
    ensures NoneSince(h, Apply, n, k) && NoneSince(h, Undo, n, k)
    ensures h.At(k).previousEmail == Some(h.At(n).email)
    ensures h.At(k).revertToken == Some(h.calls[n].request.freshRevertToken)
    ensures h.At(k).revertExpires == Some(h.calls[n].end + REVERT_WINDOW_MS)
  {
    hide Hits;
    PreviousMoves(h, k - 1);
    if Hits(h, Apply, k - 1) {
      n := k - 1;
    } else {
      n := PreviousOrigin(h, k - 1);
    }
    LastIsLatest(h, Apply, k);
  }

  /**
   A successful check presents exactly the code issued last, and that code answers no other
   check: two successful checks always answer to two different issued codes.
   */
  lemma ChecksUseDistinctCodes(h: History, i: nat, j: nat)
    requires Blank(h.start) && i < j < |h.calls|
    requires Hits(h, Check, i) && Hits(h, Check, j)
    ensures Last(h, Issue, i).Some? && Last(h, Issue, j).Some? && Hits(h, Issue, Last(h, Issue, j).value)
    ensures Last(h, Issue, i).value < i < Last(h, Issue, j).value < j && NoneSince(h, Issue, Last(h, Issue, j).value, j)
    ensures h.calls[j].request.proof == h.calls[Last(h, Issue, j).value].request.code
  {
    var m := CodeOrigin(h, i);
    var n := CodeOrigin(h, j);
    HashIsInjective(h.calls[j].request.proof, h.calls[n].request.code, h.id);
  }

  /** A confirmation applies the address of the latest staging, with its token, within 24 hours of it, and only once. */
  lemma ConfirmAppliesLatestStaging(h: History, k: nat)
    requires Blank(h.start) && k < |h.calls| && Hits(h, Apply, k)
    ensures var n := Last(h, Stage, k);
            && n.Some? && Hits(h, Stage, n.value)
            && NoneSince(h, Stage, n.value, k) && NoneSince(h, Apply, n.value, k)
            && h.At(k + 1).email == h.calls[n.value].request.newEmail
            && h.calls[k].request.confirmToken == h.calls[n.value].request.changeToken
            && h.calls[k].at < h.calls[n.value].end + CONFIRMATION_TTL_MS
  {
    var n := PendingOrigin(h, k);
    ConfirmEffect(h.id, h.policy, h.At(k), h.calls[k]);
  }

  /** A revert restores the address the latest applied change replaced, with that change's token, within 72 hours. */
  lemma RevertRestoresLatestConfirm(h: History, k: nat)
    requires Blank(h.start) && k < |h.calls| && Hits(h, Undo, k)
    ensures var n := Last(h, Apply, k);
            && n.Some? && Hits(h, Apply, n.value)
            && NoneSince(h, Apply, n.value, k) && NoneSince(h, Undo, n.value, k)
            && h.At(k + 1).email == h.At(n.value).email
            && h.calls[k].request.revertToken == h.calls[n.value].request.freshRevertToken
            && h.calls[k].at <= h.calls[n.value].end + REVERT_WINDOW_MS
  {
    var n := PreviousOrigin(h, k);
    RevertEffect(h.id, h.policy, h.At(k), h.calls[k]);
  }

  // ---- conservation --------------------------------------------------------------------------

  function Held<T>(o: Option<T>): nat {
    if o.Some? then 1 else 0
  }

  lemma {:induction false} Conservation(h: History, k: nat)
    requires k <= |h.calls|
    ensures Count(h, Check, k) + Held(h.At(k).codeHash) <= Count(h, Issue, k) + Held(h.start.codeHash)
    ensures Count(h, Stage, k) <= Count(h, Check, k)
    ensures Count(h, Apply, k) + Held(h.At(k).pendingEmail) <= Count(h, Stage, k) + Held(h.start.pendingEmail)
    ensures Count(h, Undo, k) + Held(h.At(k).previousEmail) <= Count(h, Apply, k) + Held(h.start.previousEmail)
  {
    if k > 0 {
      Conservation(h, k - 1);
      var u, c := h.At(k - 1), h.calls[k - 1];
      if c.request.RequestCode? {
        CodeGuessing.IssueEffect(h.id, h.policy, u, c);
        EmailFrame(h.id, h.policy, u, c);
      } else if c.request.RequestChange? {
        CodeGuessing.CheckEffect(h.id, h.policy, u, c);
        StageEffect(h.id, h.policy, u, c);
      } else {
        CodeGuessing.CodeFrame(h.id, h.policy, u, c);
        if c.request.Confirm? {
          ConfirmEffect(h.id, h.policy, u, c);
        } else if c.request.Revert? {
          RevertEffect(h.id, h.policy, u, c);
        } else {
          EmailFrame(h.id, h.policy, u, c);
        }
      }
    }
  }

  /** Effective reverts, applied changes, stagings, successful checks and issued codes, in that order. */
  lemma MilestonesAreOrdered(h: History, k: nat)
    requires Blank(h.start) && k <= |h.calls|
    ensures Count(h, Undo, k) <= Count(h, Apply, k) <= Count(h, Stage, k)
    ensures Count(h, Stage, k) <= Count(h, Check, k) <= Count(h, Issue, k)
  {
    Conservation(h, k);
  }

  // ---- revert undoes confirm -----------------------------------------------------------------

  /** Between the requests `i` and `j` no change is applied and none is reverted. */
  predicate Undisturbed(h: History, i: nat, j: nat)
    requires i <= j <= |h.calls|
  {
    forall k :: i <= k < j ==> !Hits(h, Apply, k) && !Hits(h, Undo, k)
  }

  lemma RevertStateKeptByOne(h: History, k: nat)
    requires k < |h.calls| && !Hits(h, Apply, k) && !Hits(h, Undo, k)
    ensures SameRevertState(h.At(k), h.At(k + 1))
  {
    EmailTransition(h, k);
  }

  lemma {:induction false} RevertStateKept(h: History, i: nat, j: nat)
    requires i <= j <= |h.calls| && Undisturbed(h, i, j)
    ensures SameRevertState(h.At(i), h.At(j))
    decreases j - i
  {
    if i < j {
      RevertStateKept(h, i, j - 1);
      RevertStateKeptByOne(h, j - 1);
    }
  }

  /**
   After the change applied by request `i`, any requests that apply and revert nothing, and then
   a call with its revert token: the revert succeeds exactly inside the 72-hour window with the
   old address still free. It restores that address, leaves nothing pending, and the epoch has
   risen by two plus whatever the requests in between raised it.
   */
  lemma RevertUndoesConfirm(h: History, i: nat, j: nat)
    requires i < j < |h.calls| && Hits(h, Apply, i) && Undisturbed(h, i + 1, j)
    requires h.calls[j].request == Revert(h.calls[i].request.freshRevertToken)
    ensures h.OutcomeOf(j) == Ok(Reverted)
            <==> h.calls[j].at <= h.calls[i].end + REVERT_WINDOW_MS && !h.calls[j].taken
    ensures h.OutcomeOf(j) == Ok(Reverted) ==>
              var v := h.At(j + 1);
              && v.email == h.At(i).email
              && v.previousEmail.None?
              && v.pendingEmail.None? && v.pendingToken.None? && v.pendingExpires.None?
              && v.sessionEpoch == h.At(i).sessionEpoch + 2 + RaisesIn(h, i + 1, j)
  {
    ConfirmEffect(h.id, h.policy, h.At(i), h.calls[i]);
    RevertStateKept(h, i + 1, j);
    RevertEffect(h.id, h.policy, h.At(j), h.calls[j]);
    EpochCountsRaises(h, i + 1, j);
  }

  /** Repeating an effective revert reports success and changes nothing, until a newer change is applied. */
  lemma RevertIsIdempotent(h: History, j: nat, k: nat)
    requires j < k < |h.calls| && Hits(h, Undo, j)
    requires forall n :: j < n < k ==> !Hits(h, Apply, n)
    requires h.calls[k].request == h.calls[j].request
    ensures h.OutcomeOf(k) == Ok(AlreadyReverted) && h.At(k + 1) == h.At(k)
  {
    RevertEffect(h.id, h.policy, h.At(j), h.calls[j]);
    NothingToUndo(h, j + 1, k);
    RevertEffect(h.id, h.policy, h.At(k), h.calls[k]);
  }

  lemma NothingToUndoStep(h: History, k: nat)
    requires k < |h.calls| && !Hits(h, Apply, k) && h.At(k).previousEmail.None?
    ensures h.At(k + 1).previousEmail.None? && h.At(k + 1).revertToken == h.At(k).revertToken
  {
    EmailTransition(h, k);
  }

  lemma {:induction false} NothingToUndo(h: History, i: nat, j: nat)
    requires i <= j <= |h.calls| && h.At(i).previousEmail.None?
    requires forall n :: i <= n < j ==> !Hits(h, Apply, n)
    ensures h.At(j).previousEmail.None? && h.At(j).revertToken == h.At(i).revertToken
    decreases j - i
  {
    if i < j {
      NothingToUndo(h, i, j - 1);
      NothingToUndoStep(h, j - 1);
    }
  }

  /** `randomUUID` never repeats: every confirmation is offered a revert token no other one is. */
  predicate FreshRevertTokens(h: History) {
    forall i, j :: 0 <= i < j < |h.calls| && h.calls[i].request.Confirm? && h.calls[j].request.Confirm? ==>
                     h.calls[i].request.freshRevertToken != h.calls[j].request.freshRevertToken
  }

  /** Once a newer change is applied, the older change's revert token is unknown for good. */
  lemma NewerConfirmRetiresOlderToken(h: History, i: nat, k: nat, j: nat)
    requires FreshRevertTokens(h) && i < k < j < |h.calls|
    requires Hits(h, Apply, i) && Hits(h, Apply, k)
    requires h.calls[j].request == Revert(h.calls[i].request.freshRevertToken)
    ensures h.OutcomeOf(j) == Err(InvalidToken)
  {
    TokenStaysRetired(h, i, k, j);
  }

  lemma RevertTokenMoves(h: History, k: nat)
    requires k < |h.calls|
    ensures h.At(k + 1).revertToken
            == if Hits(h, Apply, k) then Some(h.calls[k].request.freshRevertToken) else h.At(k).revertToken
  {
    EmailTransition(h, k);
  }

  lemma {:induction false} TokenStaysRetired(h: History, i: nat, k: nat, j: nat)
    requires FreshRevertTokens(h) && i < k < j <= |h.calls|
    requires Hits(h, Apply, i) && Hits(h, Apply, k)
    ensures h.At(j).revertToken != Some(h.calls[i].request.freshRevertToken)
    decreases j
  {
    RevertTokenMoves(h, j - 1);
    if k < j - 1 {
      TokenStaysRetired(h, i, k, j - 1);
    }
  }
}
