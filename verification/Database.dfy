/**
 The user collection: primitive writes guarded by the unique index on `email`, and
 `runInTransaction` with its retries, aborts and session-less fallback.
 */
module Database {
  import opened Prelude
  import opened UserRecord

  type Docs = map<UserId, User>

  predicate HeldByOther(docs: Docs, id: UserId, email: Address) {
    exists other :: other in docs && other != id && docs[other].email == email
  }

  predicate UniqueEmails(docs: Docs) {
    forall a, b :: a in docs && b in docs && a != b ==> docs[a].email != docs[b].email
  }

  /**
   One repository write. A missing document is an error for the save path and for the epoch
   bump; the query paths silently match nothing. The unique index refuses a taken address.
   */
  function TryWrite(docs: Docs, id: UserId, w: Write): Result<Docs, DomainError> {
    if id !in docs then
      if w.BumpEpoch? || (w.Update? && w.patch.password.To?) then Err(UserNotFound) else Ok(docs)
    else if w.Update? && w.patch.email.To? && HeldByOther(docs, id, w.patch.email.value) then Err(DuplicateKey)
    else Ok(docs[id := ApplyWrite(docs[id], w)])
  }

  function TryAll(docs: Docs, id: UserId, ws: seq<Write>): Result<Docs, DomainError>
    decreases |ws|
  {
    if ws == [] then Ok(docs)
    else
      var r := TryWrite(docs, id, ws[0]);
      if r.Err? then r else TryAll(r.value, id, ws[1..])
  }

  /** A list of writes that goes through changes one document, to what the writes say, and nothing else. */
  lemma {:induction false} TryAllWritesOneDocument(docs: Docs, id: UserId, ws: seq<Write>)
    requires id in docs && TryAll(docs, id, ws).Ok?
    ensures TryAll(docs, id, ws).value == docs[id := ApplyAll(docs[id], ws)]
    decreases |ws|
  {
    if ws != [] {
      TryAllWritesOneDocument(TryWrite(docs, id, ws[0]).value, id, ws[1..]);
    } else {
      assert docs == docs[id := docs[id]];
    }
  }

  lemma WriteKeepsUnique(docs: Docs, id: UserId, w: Write)
    requires UniqueEmails(docs) && TryWrite(docs, id, w).Ok?
    ensures UniqueEmails(TryWrite(docs, id, w).value)
  {
    var next := TryWrite(docs, id, w).value;
    assert forall o :: o in docs && o != id ==> o in next && next[o] == docs[o];
  }

  lemma {:induction false} TryAllKeepsUnique(docs: Docs, id: UserId, ws: seq<Write>)
    requires UniqueEmails(docs) && TryAll(docs, id, ws).Ok?
    ensures UniqueEmails(TryAll(docs, id, ws).value)
    decreases |ws|
  {
    if ws != [] {
      hide UniqueEmails, TryWrite;
      WriteKeepsUnique(docs, id, ws[0]);
      TryAllKeepsUnique(TryWrite(docs, id, ws[0]).value, id, ws[1..]);
    }
  }

  lemma {:induction false} TryAllAppend(docs: Docs, id: UserId, ws: seq<Write>, w: Write)
    requires TryAll(docs, id, ws).Ok?
    ensures TryAll(docs, id, ws + [w]) == TryWrite(TryAll(docs, id, ws).value, id, w)
    decreases |ws|
  {
    if ws == [] {
      assert [] + [w] == [w];
    } else {
      assert (ws + [w])[1..] == ws[1..] + [w];
      TryAllAppend(TryWrite(docs, id, ws[0]).value, id, ws[1..], w);
    }
  }

  lemma {:induction false} TryAllStopsAtError(docs: Docs, id: UserId, ws: seq<Write>, k: nat)
    requires k <= |ws| && TryAll(docs, id, ws[..k]).Err?
    ensures TryAll(docs, id, ws) == TryAll(docs, id, ws[..k])
    decreases k
  {
    var r := TryWrite(docs, id, ws[0]);
    if r.Ok? {
      assert ws[..k][1..] == ws[1..][..k - 1];
      TryAllStopsAtError(r.value, id, ws[1..], k - 1);
    }
  }

  /** How one attempt to commit ends. */
  datatype Commit = Commits | Aborts(transient: bool) | AppliesThenFails

  /** One run of the callback: the database may fail at some write, transiently or not, and then at the commit. */
  datatype Attempt = Attempt(failsAt: Option<nat>, transient: bool, commit: Commit) {
    predicate Clean() {
      failsAt.None? && commit.Commits?
    }

    predicate Retried() {
      commit == Aborts(true) && (failsAt.Some? ==> transient)
    }
  }

  /** What the deployment does to one transaction. */
  datatype Weather = Weather(sessionStarts: bool, attempts: seq<Attempt>, fallbackFailsAt: Option<nat>) {
    /**
     Nothing stands in the way for good: with a session, some attempt is undisturbed and those before
     it fail only transiently; without one, no write fails.
     */
    predicate Calm() {
      if sessionStarts then
        exists n :: 0 <= n < |attempts| && attempts[n].Clean() && forall m :: 0 <= m < n ==> attempts[m].Retried()
      else fallbackFailsAt.None?
    }

    /** Every commit reports what it did. */
    predicate RepliesArrive() {
      forall a :: a in attempts ==> !a.commit.AppliesThenFails?
    }
  }

  class UserCollection {
    var docs: Docs

    ghost predicate Valid() reads this {
      UniqueEmails(docs)
    }

    constructor ()
      ensures Valid() && docs == map[]
    {
      docs := map[];
    }

    /** A new document under a fresh id; the unique index refuses a taken address. */
    method Insert(id: UserId, doc: User) returns (r: Result<(), DomainError>)
      requires Valid() && id !in docs
      modifies this
      ensures Valid()
      ensures r == if HeldByOther(old(docs), id, doc.email) then Err(DuplicateKey) else Ok(())
      ensures docs == if r.Ok? then old(docs)[id := doc] else old(docs)
    {
      if exists o :: o in docs && docs[o].email == doc.email {
        return Err(DuplicateKey);
      }
      InsertKeepsUnique(docs, id, doc);
      docs := docs[id := doc];
      r := Ok(());
    }

    /** A write outside any transaction. */
    method Write(id: UserId, w: Write) returns (r: Result<(), DomainError>)
      requires Valid()
      modifies this
      ensures Valid()
      ensures match TryWrite(old(docs), id, w)
              case Ok(next) => r == Ok(()) && docs == next
              case Err(e) => r == Err(e) && docs == old(docs)
    {
      var attempted := TryWrite(docs, id, w);
      match attempted
      case Err(e) => r := Err(e);
      case Ok(next) =>
        assert TryAll(docs, id, [w]) == Ok(next);
        TryAllKeepsUnique(docs, id, [w]);
        docs := next;
        r := Ok(());
    }
  }

  lemma InsertKeepsUnique(docs: Docs, id: UserId, doc: User)
    requires UniqueEmails(docs) && id !in docs && !HeldByOther(docs, id, doc.email)
    ensures UniqueEmails(docs[id := doc])
  {
    forall o | o in docs ensures docs[o].email != doc.email {
      if docs[o].email == doc.email {
        assert HeldByOther(docs, id, doc.email);
      }
    }
  }

  lemma {:induction false} WritesNeverReportStoreFailure(docs: Docs, id: UserId, ws: seq<Write>)
    ensures TryAll(docs, id, ws) != Err(StoreFailure)
    decreases |ws|
  {
    if ws != [] && TryWrite(docs, id, ws[0]).Ok? {
      WritesNeverReportStoreFailure(TryWrite(docs, id, ws[0]).value, id, ws[1..]);
    }
  }

  /** What one run of the callback comes to: the writes, unless the database fails at one that is reached. */
  function Ran(view: Docs, id: UserId, ws: seq<Write>, failsAt: Option<nat>): Result<Docs, DomainError> {
    if failsAt.Some? && failsAt.value < |ws| && TryAll(view, id, ws[..failsAt.value]).Ok? then Err(StoreFailure)
    else TryAll(view, id, ws)
  }

  /** The callback against a session's private view of the collection. */
  method RunCallback(view: Docs, id: UserId, ws: seq<Write>, failsAt: Option<nat>)
    returns (r: Result<Docs, DomainError>)
    ensures r == Ran(view, id, ws, failsAt)
  {
    var working := view;
    var j := 0;
    while j < |ws|
      invariant 0 <= j <= |ws|
      invariant TryAll(view, id, ws[..j]) == Ok(working)
      invariant failsAt.Some? ==> j <= failsAt.value || failsAt.value >= |ws|
    {
      if failsAt == Some(j) {
        return Err(StoreFailure);
      }
      var next := TryWrite(working, id, ws[j]);
      TryAllAppend(view, id, ws[..j], ws[j]);
      assert ws[..j] + [ws[j]] == ws[..j + 1];
      if next.Err? {
        TryAllStopsAtError(view, id, ws, j + 1);
        if failsAt.Some? && failsAt.value < |ws| {
          assert ws[..failsAt.value][..j + 1] == ws[..j + 1];
          TryAllStopsAtError(view, id, ws[..failsAt.value], j + 1);
        }
        return Err(next.error);
      }
      working := next.value;
      j := j + 1;
    }
    assert ws[..j] == ws;
    r := Ok(working);
  }

  /** `withTransaction`: transient failures run the callback again, anything else ends it. */
  function Transaction(docs: Docs, id: UserId, ws: seq<Write>, attempts: seq<Attempt>)
    : (Result<(), DomainError>, Docs)
  {
    if attempts == [] then (Err(StoreFailure), docs)
    else
      var attempt, later := attempts[0], attempts[1..];
      match Ran(docs, id, ws, attempt.failsAt)
      case Err(e) =>
        if e == StoreFailure && attempt.transient then Transaction(docs, id, ws, later) else (Err(e), docs)
      case Ok(next) =>
        match attempt.commit
        case Commits => (Ok(()), next)
        case AppliesThenFails => (Err(StoreFailure), next)
        case Aborts(transient) => if transient then Transaction(docs, id, ws, later) else (Err(StoreFailure), docs)
  }

  /** All or nothing, over every failure point and any number of aborted and retried attempts. */
  lemma {:induction false} TransactionIsAtomic(docs: Docs, id: UserId, ws: seq<Write>, attempts: seq<Attempt>)
    ensures var (r, after) := Transaction(docs, id, ws, attempts);
            && (after == docs || TryAll(docs, id, ws) == Ok(after))
            && (r.Ok? ==> TryAll(docs, id, ws) == Ok(after))
            && (r.Err? && (forall a :: a in attempts ==> !a.commit.AppliesThenFails?) ==> after == docs)
  {
    if attempts != [] {
      TransactionIsAtomic(docs, id, ws, attempts[1..]);
    }
  }

  /** Once an attempt is undisturbed, the transaction ends as the writes themselves would. */
  lemma {:induction false} TransactionSettles(docs: Docs, id: UserId, ws: seq<Write>, attempts: seq<Attempt>, n: nat)
    requires n < |attempts| && attempts[n].Clean() && forall m :: 0 <= m < n ==> attempts[m].Retried()
    ensures Transaction(docs, id, ws, attempts)
            == match TryAll(docs, id, ws) case Ok(next) => (Ok(()), next) case Err(e) => (Err(e), docs)
    decreases n
  {
    WritesNeverReportStoreFailure(docs, id, ws);
    if n > 0 {
      assert attempts[0].Retried();
      TransactionSettles(docs, id, ws, attempts[1..], n - 1);
    }
  }

  /** The first `k` writes took effect; what came then, if anything, is the failure that is reported. */
  predicate StoppedAfter(before: Docs, after: Docs, id: UserId, ws: seq<Write>, failsAt: Option<nat>,
                         r: Result<(), DomainError>, k: nat)
  {
    && k <= |ws| && TryAll(before, id, ws[..k]) == Ok(after)
    && (failsAt.Some? && failsAt.value < |ws| ==> k <= failsAt.value)
    && if k == |ws| then r == Ok(())
       else if failsAt == Some(k) then r == Err(StoreFailure)
       else r.Err? && TryAll(before, id, ws[..k + 1]) == Err(r.error)
  }

  /** An undisturbed fallback ends as the writes themselves would, except that writes before a refused one stay. */
  lemma UndisturbedFallback(before: Docs, after: Docs, id: UserId, ws: seq<Write>, r: Result<(), DomainError>, k: nat)
    requires StoppedAfter(before, after, id, ws, None, r, k)
    ensures match TryAll(before, id, ws) case Ok(next) => r == Ok(()) && after == next case Err(e) => r == Err(e)
  {
    if k < |ws| {
      TryAllStopsAtError(before, id, ws, k + 1);
    } else {
      assert ws[..k] == ws;
    }
  }

  /**
   Runs the writes `ws` on the document `id`. With a session the collection ends either
   unchanged or with all of them applied once, however many attempts abort and retry; an `Ok`
   means applied, and an error means unchanged unless a commit took effect and its reply was
   lost. Without a session a prefix of the writes is applied. If nothing stands in the way for
   good, with or without a session, the answer is the writes' own.
   */
  method RunInTransaction(db: UserCollection, id: UserId, ws: seq<Write>, weather: Weather)
    returns (r: Result<(), DomainError>)
    requires db.Valid()
    modifies db
    ensures db.Valid()
    ensures weather.sessionStarts ==> (r, db.docs) == Transaction(old(db.docs), id, ws, weather.attempts)
    ensures weather.sessionStarts ==> db.docs == old(db.docs) || TryAll(old(db.docs), id, ws) == Ok(db.docs)
    ensures weather.sessionStarts && r.Ok? ==> TryAll(old(db.docs), id, ws) == Ok(db.docs)
    ensures weather.sessionStarts && r.Err? && weather.RepliesArrive() ==> db.docs == old(db.docs)
    ensures weather.Calm() ==>
              match TryAll(old(db.docs), id, ws)
              case Ok(next) => r == Ok(()) && db.docs == next
              case Err(e) => r == Err(e) && (weather.sessionStarts ==> db.docs == old(db.docs))
    ensures !weather.sessionStarts ==>
              exists k: nat :: StoppedAfter(old(db.docs), db.docs, id, ws, weather.fallbackFailsAt, r, k)
  {
    if !weather.sessionStarts {
      r := RunWithoutSession(db, id, ws, weather.fallbackFailsAt);
      return;
    }
    ghost var before := db.docs;
    TransactionIsAtomic(before, id, ws, weather.attempts);
    if weather.Calm() {
      var n :| 0 <= n < |weather.attempts| && weather.attempts[n].Clean()
               && forall m :: 0 <= m < n ==> weather.attempts[m].Retried();
      TransactionSettles(before, id, ws, weather.attempts, n);
    }
    var i := 0;
    while i < |weather.attempts|
      invariant 0 <= i <= |weather.attempts|
      invariant db.docs == before && db.Valid()
      invariant Transaction(before, id, ws, weather.attempts) == Transaction(before, id, ws, weather.attempts[i..])
    {
      var attempt := weather.attempts[i];
      assert weather.attempts[i..][0] == attempt && weather.attempts[i..][1..] == weather.attempts[i + 1..];
      var ran := RunCallback(db.docs, id, ws, attempt.failsAt);
      if ran.Err? {
        if ran.error != StoreFailure || !attempt.transient {
          return Err(ran.error);
        }
      } else {
        TryAllKeepsUnique(db.docs, id, ws);
        match attempt.commit
        case Commits =>
          db.docs := ran.value;
          return Ok(());
        case AppliesThenFails =>
          db.docs := ran.value;
          return Err(StoreFailure);
        case Aborts(transient) =>
          if !transient {
            return Err(StoreFailure);
          }
      }
      i := i + 1;
    }
    r := Err(StoreFailure);
  }

  /** The degraded mode: each write commits on its own, and the first failure ends the callback. */
  method RunWithoutSession(db: UserCollection, id: UserId, ws: seq<Write>, failsAt: Option<nat>)
    returns (r: Result<(), DomainError>)
    requires db.Valid()
    modifies db
    ensures db.Valid()
    ensures exists k: nat :: StoppedAfter(old(db.docs), db.docs, id, ws, failsAt, r, k)
    ensures failsAt.None? ==>
              match TryAll(old(db.docs), id, ws)
              case Ok(next) => r == Ok(()) && db.docs == next
              case Err(e) => r == Err(e)
  {
    var j := 0;
    while j < |ws|
      invariant 0 <= j <= |ws| && db.Valid()
      invariant TryAll(old(db.docs), id, ws[..j]) == Ok(db.docs)
      invariant failsAt.Some? ==> j <= failsAt.value || failsAt.value >= |ws|
    {
      if failsAt == Some(j) {
        r := Err(StoreFailure);
        assert StoppedAfter(old(db.docs), db.docs, id, ws, failsAt, r, j);
        return;
      }
      TryAllAppend(old(db.docs), id, ws[..j], ws[j]);
      assert ws[..j] + [ws[j]] == ws[..j + 1];
      r := db.Write(id, ws[j]);
      if r.Err? {
        assert StoppedAfter(old(db.docs), db.docs, id, ws, failsAt, r, j);
        if failsAt.None? {
          UndisturbedFallback(old(db.docs), db.docs, id, ws, r, j);
        }
        return;
      }
      j := j + 1;
    }
    r := Ok(());
    assert StoppedAfter(old(db.docs), db.docs, id, ws, failsAt, r, j);
    if failsAt.None? {
      UndisturbedFallback(old(db.docs), db.docs, id, ws, r, j);
    }
  }
}
