/**
 Users, roles and permissions read through the cache: the rules of a look-aside read, how stale
 it can get when invalidation fails, and when it is exact.
 */
module Access {
  import opened Prelude
  import opened Cache

  datatype Permission = Permission(name: string, description: string)
  datatype Role = Role(name: string, permissionIds: seq<string>)
  datatype Account = Account(id: string, role: string, permissions: seq<string>)

  /** The documents the cache speeds up, by the names they are looked up with. */
  datatype Db = Db(users: map<string, Account>, roles: map<string, Role>, permissions: map<string, Permission>)

  datatype CacheKey = UserKey(id: string) | RoleKey(name: string) | PermissionKey(name: string)

  /** A cached document; a missing role or permission is cached as `null`. */
  datatype Value =
    | UserValue(user: Account)
    | RoleValue(role: Option<Role>)
    | PermissionValue(permission: Option<Permission>)

  function Find<T>(docs: map<string, T>, name: string): Option<T> {
    if name in docs then Some(docs[name]) else None
  }

  /** What an uncached read finds. A missing user is an error and is never cached. */
  function Truth(db: Db, key: CacheKey): Option<Value> {
    match key
    case UserKey(id) => if id in db.users then Some(UserValue(db.users[id])) else None
    case RoleKey(name) => Some(RoleValue(Find(db.roles, name)))
    case PermissionKey(name) => Some(PermissionValue(Find(db.permissions, name)))
  }

  function TtlMs(key: CacheKey): int {
    match key
    case UserKey(_) => DEFAULT_TTL_MS
    case RoleKey(_) => 600 * 1000
    case PermissionKey(_) => 900 * 1000
  }

  function KeyText(key: CacheKey): string {
    match key
    case UserKey(id) => "user:" + id
    case RoleKey(name) => "rbac:roles:name:" + name
    case PermissionKey(name) => "rbac:permissions:name:" + name
  }

  function StoredKey(key: CacheKey): string {
    PrefixedKey(KeyText(key))
  }

  /** The letters that tell the families apart, and where the name starts. */
  lemma KeyTextShape(key: CacheKey)
    ensures var t := KeyText(key);
            match key
            case UserKey(id) => |t| >= 5 && t[0] == 'u' && t[5..] == id
            case RoleKey(name) => |t| >= 16 && t[0] == 'r' && t[5] == 'r' && t[16..] == name
            case PermissionKey(name) => |t| >= 22 && t[0] == 'r' && t[5] == 'p' && t[22..] == name
  {
  }

  lemma StoredKeyIsInjective(a: CacheKey, b: CacheKey)
    requires StoredKey(a) == StoredKey(b)
    ensures a == b
  {
    assert KeyText(a) == KeyText(b) by {
      assert KeyText(a) == StoredKey(a)[6..] && KeyText(b) == StoredKey(b)[6..];
    }
    hide KeyText, StoredKey;
    KeyTextShape(a);
    KeyTextShape(b);
  }

  // ---- one read ------------------------------------------------------------------------------------

  /** Cache first; on a miss the database answers and the answer is stored, unless a command fails. */
  function Fetch(db: Db, cells: Cells<Value>, key: CacheKey, now: Instant, faults: Faults)
    : (Option<Value>, Cells<Value>)
  {
    var cached := if faults.read then None else Lookup(cells, StoredKey(key), now);
    var kept := AfterGet(cells, StoredKey(key), now, faults);
    if cached.Some? then (cached, kept)
    else
      match Truth(db, key)
      case None => (None, kept)
      case Some(v) => (Some(v), if faults.write then kept else kept[StoredKey(key) := Stored(v, TtlMs(key), now)])
  }

  // ---- runs of reads and changes -------------------------------------------------------------------------

  /** A read, or a change of the documents followed by the invalidations it emits; these may fail to land. */
  datatype Op =
    | Read(key: CacheKey, at: Instant, faults: Faults)
    | Change(after: Db, emitted: seq<Emitted>, at: Instant, lands: bool)

  predicate Reaches(emitted: seq<Emitted>, stored: string) {
    exists i :: 0 <= i < |emitted| && Invalidates(PatternOf(emitted[i]), stored)
  }

  function Purged(cells: Cells<Value>, emitted: seq<Emitted>): Cells<Value> {
    map stored | stored in cells && !Reaches(emitted, stored) :: cells[stored]
  }

  /** Every key whose document the change touches is among those it invalidates. */
  ghost predicate Covers(before: Db, after: Db, emitted: seq<Emitted>) {
    forall key :: Truth(before, key) != Truth(after, key) ==> Reaches(emitted, StoredKey(key))
  }

  datatype Run = Run(start: Db, ops: seq<Op>) {

    function DbAt(k: nat): Db
      requires k <= |ops|
    {
      if k == 0 then start else if ops[k - 1].Change? then ops[k - 1].after else DbAt(k - 1)
    }

    function CellsAt(k: nat): Cells<Value>
      requires k <= |ops|
    {
      if k == 0 then map[]
      else
        match ops[k - 1]
        case Read(key, at, faults) => Fetch(DbAt(k - 1), CellsAt(k - 1), key, at, faults).1
        case Change(_, emitted, _, lands) => if lands then Purged(CellsAt(k - 1), emitted) else CellsAt(k - 1)
    }

    function Served(k: nat): Option<Value>
      requires k < |ops| && ops[k].Read?
    {
      Fetch(DbAt(k), CellsAt(k), ops[k].key, ops[k].at, ops[k].faults).0
    }

    predicate Timely() {
      (forall k :: 0 <= k < |ops| ==> 0 <= ops[k].at) && (forall j, k :: 0 <= j < k < |ops| ==> ops[j].at <= ops[k].at)
    }
  }

  /** The entry was loaded by the read numbered `i`, before the `k`-th operation. */
  predicate LoadedBy(r: Run, k: nat, key: CacheKey, i: nat)
    requires k <= |r.ops| && StoredKey(key) in r.CellsAt(k) && r.CellsAt(k)[StoredKey(key)].raw.Parsed?
  {
    var e := r.CellsAt(k)[StoredKey(key)].raw.entry;
    i < k && Truth(r.DbAt(i), key) == Some(e.data) && e.expiresAt == Some(r.ops[i].at + TtlMs(key))
  }

  lemma {:induction false} EntriesWereLoaded(r: Run, k: nat, key: CacheKey) returns (i: nat)
    requires r.Timely() && k <= |r.ops| && StoredKey(key) in r.CellsAt(k)
    ensures r.CellsAt(k)[StoredKey(key)].raw.Parsed? && LoadedBy(r, k, key, i)
  {
    hide StoredKey, Truth, Reaches, TtlMs;
    var stored, op := StoredKey(key), r.ops[k - 1];
    if stored in r.CellsAt(k - 1) && r.CellsAt(k)[stored] == r.CellsAt(k - 1)[stored] {
      i := EntriesWereLoaded(r, k - 1, key);
    } else {
      assert StoredKey(op.key) == stored;
      StoredKeyIsInjective(op.key, key);
      i := k - 1;
    }
  }

  /**
   Whatever fails, what a read serves was the truth when some earlier read, at most the entry's
   lifetime ago, loaded it: five minutes for a user, ten for a role, fifteen for a permission.
   */
  lemma StalenessIsBounded(r: Run, k: nat)
    requires r.Timely() && k < |r.ops| && r.ops[k].Read? && r.Served(k).Some?
    ensures exists i :: 0 <= i <= k && Truth(r.DbAt(i), r.ops[k].key) == r.Served(k)
                        && r.ops[k].at - r.ops[i].at <= match r.ops[k].key
                                                        case UserKey(_) => 300 * 1000
                                                        case RoleKey(_) => 600 * 1000
                                                        case PermissionKey(_) => 900 * 1000
  {
    var key, now := r.ops[k].key, r.ops[k].at;
    if !r.ops[k].faults.read && Lookup(r.CellsAt(k), StoredKey(key), now).Some? {
      var i := EntriesWereLoaded(r, k, key);
      assert Truth(r.DbAt(i), key) == r.Served(k) && now - r.ops[i].at <= TtlMs(key);
    } else {
      assert Truth(r.DbAt(k), key) == r.Served(k) && now - r.ops[k].at <= TtlMs(key);
    }
  }

  /** No operation between the reads `i` and `k` is another read of the key or a landed invalidation of it. */
  predicate LeftInCache(r: Run, i: nat, k: nat, key: CacheKey)
    requires k <= |r.ops|
  {
    forall n :: i < n < k ==>
                  match r.ops[n]
                  case Read(other, _, _) => other != key
                  case Change(_, emitted, _, lands) => lands ==> !Reaches(emitted, StoredKey(key))
  }

  lemma {:induction false} EntryStays(r: Run, i: nat, k: nat, key: CacheKey)
    requires i < k <= |r.ops| && StoredKey(key) in r.CellsAt(i + 1) && LeftInCache(r, i, k, key)
    ensures StoredKey(key) in r.CellsAt(k) && r.CellsAt(k)[StoredKey(key)] == r.CellsAt(i + 1)[StoredKey(key)]
    decreases k
  {
    if k > i + 1 {
      EntryStays(r, i, k - 1, key);
      EntryStep(r, k - 1, key);
    }
  }

  lemma EntryStep(r: Run, k: nat, key: CacheKey)
    requires k < |r.ops| && StoredKey(key) in r.CellsAt(k)
    requires match r.ops[k]
             case Read(other, _, _) => other != key
             case Change(_, emitted, _, lands) => lands ==> !Reaches(emitted, StoredKey(key))
    ensures StoredKey(key) in r.CellsAt(k + 1) && r.CellsAt(k + 1)[StoredKey(key)] == r.CellsAt(k)[StoredKey(key)]
  {
    if r.ops[k].Read? && StoredKey(r.ops[k].key) == StoredKey(key) {
      StoredKeyIsInjective(r.ops[k].key, key);
    }
  }

  /**
   The cache does its work: what a read loaded and stored is served again, unread from the database,
   for the entry's whole lifetime, unless an invalidation of it lands.
   */
  lemma LoadedIsServedAgain(r: Run, i: nat, k: nat)
    requires r.Timely() && i < k < |r.ops| && r.ops[i].Read? && r.ops[k].Read? && r.ops[i].key == r.ops[k].key
    requires r.ops[i].faults == Faults(false, false) && !r.ops[k].faults.read
    requires Lookup(r.CellsAt(i), StoredKey(r.ops[i].key), r.ops[i].at).None?
    requires Truth(r.DbAt(i), r.ops[i].key).Some? && LeftInCache(r, i, k, r.ops[i].key)
    requires r.ops[k].at - r.ops[i].at < match r.ops[i].key
                                         case UserKey(_) => 300 * 1000
                                         case RoleKey(_) => 600 * 1000
                                         case PermissionKey(_) => 900 * 1000
    ensures r.Served(k) == Truth(r.DbAt(i), r.ops[i].key)
  {
    var key := r.ops[i].key;
    var cells := AfterGet(r.CellsAt(i), StoredKey(key), r.ops[i].at, r.ops[i].faults);
    var value := Truth(r.DbAt(i), key).value;
    assert r.CellsAt(i + 1) == cells[StoredKey(key) := Stored(value, TtlMs(key), r.ops[i].at)];
    EntryStays(r, i, k, key);
    StoredIsServed(cells, StoredKey(key), value, TtlMs(key), r.ops[i].at, r.ops[k].at);
  }

  /** Every entry is what an uncached read would find. */
  ghost predicate Coherent(db: Db, cells: Cells<Value>) {
    forall key :: EntryIsTrue(db, cells, key)
  }

  predicate EntryIsTrue(db: Db, cells: Cells<Value>, key: CacheKey) {
    StoredKey(key) in cells && cells[StoredKey(key)].raw.Parsed? ==>
      Truth(db, key) == Some(cells[StoredKey(key)].raw.entry.data)
  }

  lemma FetchIsExact(db: Db, cells: Cells<Value>, key: CacheKey, now: Instant, faults: Faults)
    requires Coherent(db, cells)
    ensures Fetch(db, cells, key, now, faults).0 == Truth(db, key)
    ensures Coherent(db, Fetch(db, cells, key, now, faults).1)
  {
    assert EntryIsTrue(db, cells, key);
    var after := Fetch(db, cells, key, now, faults).1;
    forall other ensures EntryIsTrue(db, after, other) {
      assert EntryIsTrue(db, cells, other);
      if StoredKey(other) == StoredKey(key) {
        StoredKeyIsInjective(other, key);
      }
    }
  }

  lemma ChangeKeepsCoherent(before: Db, after: Db, cells: Cells<Value>, emitted: seq<Emitted>)
    requires Coherent(before, cells) && Covers(before, after, emitted)
    ensures Coherent(after, Purged(cells, emitted))
  {
    forall key ensures EntryIsTrue(after, Purged(cells, emitted), key) {
      assert EntryIsTrue(before, cells, key);
    }
  }

  lemma {:induction false} RunStaysCoherent(r: Run, k: nat)
    requires k <= |r.ops|
    requires forall i :: 0 <= i < k && r.ops[i].Change? ==>
                           r.ops[i].lands && Covers(r.DbAt(i), r.ops[i].after, r.ops[i].emitted)
    ensures Coherent(r.DbAt(k), r.CellsAt(k))
  {
    if k > 0 {
      hide Coherent, Covers, Fetch, Purged;
      RunStaysCoherent(r, k - 1);
      match r.ops[k - 1]
      case Read(key, at, faults) => FetchIsExact(r.DbAt(k - 1), r.CellsAt(k - 1), key, at, faults);
      case Change(after, emitted, _, _) =>
        assert Covers(r.DbAt(k - 1), r.ops[k - 1].after, r.ops[k - 1].emitted);
        ChangeKeepsCoherent(r.DbAt(k - 1), after, r.CellsAt(k - 1), emitted);
    }
  }

  /** While every covering invalidation lands, each read of a run serves exactly the current document. */
  lemma ReadsAreExact(r: Run, k: nat)
    requires k < |r.ops| && r.ops[k].Read?
    requires forall i :: 0 <= i < k && r.ops[i].Change? ==>
                           r.ops[i].lands && Covers(r.DbAt(i), r.ops[i].after, r.ops[i].emitted)
    ensures r.Served(k) == Truth(r.DbAt(k), r.ops[k].key)
  {
    RunStaysCoherent(r, k);
    FetchIsExact(r.DbAt(k), r.CellsAt(k), r.ops[k].key, r.ops[k].at, r.ops[k].faults);
  }

  // ---- what the services' writes invalidate ---------------------------------------------------------------

  /** A write to one user document emits that user's key; ids are ObjectIds, so no wildcard hides in them. */
  lemma UserWriteIsCovered(db: Db, id: string, doc: Account)
    requires '*' !in id
    ensures Covers(db, db.(users := db.users[id := doc]), [OneUser(id)])
  {
    hide Glob, Invalidates;
    var after := db.(users := db.users[id := doc]);
    forall key | Truth(db, key) != Truth(after, key) ensures Reaches([OneUser(id)], StoredKey(key)) {
      assert key == UserKey(id);
      assert StoredKey(key) == "cache:user:" + id;
      InvalidationStaysInItsSpace(OneUser(id), StoredKey(key));
      assert [OneUser(id)][0] == OneUser(id);
    }
  }

  /** A write to roles emits the whole rbac family, whichever roles it adds, renames, changes or removes. */
  lemma RoleWriteIsCovered(db: Db, roles: map<string, Role>)
    ensures Covers(db, db.(roles := roles), [AllRbac])
    ensures Covers(db, db.(roles := roles), [AllRbac, AllUsers])
  {
    RbacFamilyIsReached(db, db.(roles := roles));
  }

  lemma PermissionWriteIsCovered(db: Db, permissions: map<string, Permission>)
    ensures Covers(db, db.(permissions := permissions), [AllRbac])
  {
    RbacFamilyIsReached(db, db.(permissions := permissions));
  }

  lemma RbacKeys(key: CacheKey)
    requires !key.UserKey?
    ensures SpaceOf(AllRbac) <= StoredKey(key)
  {
    assert StoredKey(key)[..11] == "cache:rbac:";
  }

  lemma RbacFamilyIsReached(db: Db, after: Db)
    requires db.users == after.users
    ensures Covers(db, after, [AllRbac]) && Covers(db, after, [AllRbac, AllUsers])
  {
    hide Glob, Invalidates;
    forall key | Truth(db, key) != Truth(after, key)
      ensures Reaches([AllRbac], StoredKey(key)) && Reaches([AllRbac, AllUsers], StoredKey(key))
    {
      assert !key.UserKey?;
      RbacKeys(key);
      InvalidationStaysInItsSpace(AllRbac, StoredKey(key));
      assert [AllRbac][0] == [AllRbac, AllUsers][0] == AllRbac;
    }
  }
}
