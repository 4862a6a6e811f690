/** Role, permission and effective-permission lookups as the services run them. */
module AccessServices {
  import opened Prelude
  import opened Cache
  import opened Access

  const WILDCARD_PERMISSION: string := "*"

  // ---- order-preserving deduplication ------------------------------------------------------------

  /** `[...new Set(xs)]`: first occurrences, in order. */
  function Dedup(xs: seq<string>): seq<string> {
    if xs == [] then []
    else
      var init := Dedup(xs[..|xs| - 1]);
      if xs[|xs| - 1] in init then init else init + [xs[|xs| - 1]]
  }

  function First(xs: seq<string>, x: string): nat
    requires x in xs
    ensures First(xs, x) < |xs| && xs[First(xs, x)] == x && x !in xs[..First(xs, x)]
  {
    if xs[0] == x then 0 else 1 + First(xs[1..], x)
  }

  lemma {:induction false} DedupElements(xs: seq<string>)
    ensures forall x :: x in Dedup(xs) <==> x in xs
    ensures forall i, j :: 0 <= i < j < |Dedup(xs)| ==> Dedup(xs)[i] != Dedup(xs)[j]
  {
    if xs != [] {
      var init := xs[..|xs| - 1];
      DedupElements(init);
      assert xs == init + [xs[|xs| - 1]];
    }
  }

  lemma {:induction false} FirstInPrefix(xs: seq<string>, n: nat, x: string)
    requires n <= |xs| && x in xs[..n]
    ensures x in xs && First(xs, x) == First(xs[..n], x)
  {
    if xs[0] != x {
      assert xs[..n][1..] == xs[1..][..n - 1];
      FirstInPrefix(xs[1..], n - 1, x);
    }
  }

  /** The result keeps one copy of everything, in the order of first occurrence. */
  lemma {:induction false} DedupKeepsFirsts(xs: seq<string>, i: nat, j: nat)
    requires i < j < |Dedup(xs)|
    ensures Dedup(xs)[i] in xs && Dedup(xs)[j] in xs && First(xs, Dedup(xs)[i]) < First(xs, Dedup(xs)[j])
    decreases |xs|
  {
    var n := |xs| - 1;
    var init := xs[..n];
    DedupElements(xs);
    DedupElements(init);
    var d := Dedup(xs);
    if j < |Dedup(init)| {
      DedupKeepsFirsts(init, i, j);
      FirstInPrefix(xs, n, d[i]);
      FirstInPrefix(xs, n, d[j]);
    } else {
      assert d[j] == xs[n] && d[j] !in init;
      assert d[i] in init;
      FirstInPrefix(xs, n, d[i]);
    }
  }

  /** `mergeEffectivePermissions`. */
  function MergeEffectivePermissions(rolePermissions: seq<string>, userPermissions: seq<string>): seq<string> {
    Dedup(rolePermissions + userPermissions)
  }

  /** The role's permissions come first, in their own order; the user's additional grants follow. */
  lemma {:induction false} RolePermissionsComeFirst(role: seq<string>, user: seq<string>)
    ensures Dedup(role) <= MergeEffectivePermissions(role, user)
    ensures forall k :: |Dedup(role)| <= k < |MergeEffectivePermissions(role, user)| ==>
              MergeEffectivePermissions(role, user)[k] in user && MergeEffectivePermissions(role, user)[k] !in role
    decreases |user|
  {
    if user == [] {
      assert role + user == role;
    } else {
      var init, last := user[..|user| - 1], user[|user| - 1];
      RolePermissionsComeFirst(role, init);
      assert (role + user)[..|role + user| - 1] == role + init;
      assert user == init + [last];
      DedupElements(role + init);
    }
  }

  /** Nothing is lost and nothing invented: the result grants what the role or the user grants, each once. */
  lemma MergeHoldsBoth(role: seq<string>, user: seq<string>)
    ensures forall p :: p in MergeEffectivePermissions(role, user) <==> p in role || p in user
    ensures forall i, j :: 0 <= i < j < |MergeEffectivePermissions(role, user)| ==>
              MergeEffectivePermissions(role, user)[i] != MergeEffectivePermissions(role, user)[j]
  {
    DedupElements(role + user);
  }

  lemma {:induction false} FirstInSuffix(role: seq<string>, user: seq<string>, x: string)
    requires x !in role && x in user
    ensures x in role + user && First(role + user, x) == |role| + First(user, x)
    decreases |role|
  {
    if role == [] {
      assert role + user == user;
    } else {
      assert (role + user)[1..] == role[1..] + user;
      FirstInSuffix(role[1..], user, x);
    }
  }

  /** The user's additional grants keep the order in which the user has them. */
  lemma GrantsKeepTheirOrder(role: seq<string>, user: seq<string>, i: nat, j: nat)
    requires |Dedup(role)| <= i < j < |MergeEffectivePermissions(role, user)|
    ensures var m := MergeEffectivePermissions(role, user);
            m[i] in user && m[j] in user && First(user, m[i]) < First(user, m[j])
  {
    var m := MergeEffectivePermissions(role, user);
    RolePermissionsComeFirst(role, user);
    DedupKeepsFirsts(role + user, i, j);
    FirstInSuffix(role, user, m[i]);
    FirstInSuffix(role, user, m[j]);
  }

  /** Exactly the permissions of `role` and `user`, the role's first and each once. */
  ghost predicate Effective(permissions: seq<string>, role: seq<string>, user: seq<string>) {
    && (forall p :: p in permissions <==> p in role || p in user)
    && (forall i, j :: 0 <= i < j < |permissions| ==> permissions[i] != permissions[j])
    && Dedup(role) <= permissions
  }

  lemma MergedIsEffective(role: seq<string>, user: seq<string>)
    ensures Effective(MergeEffectivePermissions(role, user), role, user)
  {
    MergeHoldsBoth(role, user);
    RolePermissionsComeFirst(role, user);
  }

  // ---- batch lookup and catalog check ----------------------------------------------------------------

  function Answers(db: Db, names: seq<string>): (r: seq<Option<Permission>>)
    ensures |r| == |names|
  {
    seq(|names|, i requires 0 <= i < |names| => Find(db.permissions, names[i]))
  }

  /** What the lookup has answered so far together with what the names still missing will add. */
  function Tally(db: Db, results: seq<Option<Permission>>, missing: seq<string>): multiset<Option<Permission>> {
    multiset(results + Answers(db, missing))
  }

  lemma TallyAsked(db: Db, names: seq<string>, name: string)
    ensures Tally(db, [], names + [name]) == Tally(db, [], names) + multiset{Find(db.permissions, name)}
  {
    assert [] + Answers(db, names + [name]) == ([] + Answers(db, names)) + [Find(db.permissions, name)];
  }

  lemma TallyHit(db: Db, results: seq<Option<Permission>>, missing: seq<string>, found: Option<Permission>)
    ensures Tally(db, results + [found], missing) == Tally(db, results, missing) + multiset{found}
  {
    var later := Answers(db, missing);
    assert (results + [found]) + later == results + ([found] + later);
  }

  lemma TallyMiss(db: Db, results: seq<Option<Permission>>, missing: seq<string>, name: string)
    ensures Tally(db, results, missing + [name]) == Tally(db, results, missing) + multiset{Find(db.permissions, name)}
  {
    assert results + Answers(db, missing + [name]) == (results + Answers(db, missing)) + [Find(db.permissions, name)];
  }

  lemma TallyLoaded(db: Db, results: seq<Option<Permission>>, missing: seq<string>)
    requires missing != []
    ensures Tally(db, results + [Find(db.permissions, missing[0])], missing[1..]) == Tally(db, results, missing)
  {
    var first := Find(db.permissions, missing[0]);
    assert results + Answers(db, missing) == (results + [first]) + Answers(db, missing[1..]);
  }

  // ---- how old a validated user can be ---------------------------------------------------------------

  /** What `validateUser` answers from a read of the user at step `k` and a read of its role at step `m`. */
  function Validated(r: Run, k: nat, m: nat): Option<Account>
    requires k < |r.ops| && m < |r.ops| && r.ops[k].Read? && r.ops[m].Read?
  {
    match r.Served(k)
    case Some(UserValue(u)) =>
      Some(u.(permissions := MergeEffectivePermissions(PermissionsOf(r.Served(m)), u.permissions)))
    case _ => None
  }

  /** The answer computed from the documents: the user as in one state, the role's permissions as in another. */
  function Merged(users: Db, roles: Db, id: string): Option<Account> {
    match Find(users.users, id)
    case None => None
    case Some(u) =>
      var granted := if u.role in roles.roles then roles.roles[u.role].permissionIds else [];
      Some(u.(permissions := MergeEffectivePermissions(granted, u.permissions)))
  }

  /**
   Whatever fails, and whatever happens between its two reads, a validated user is the current answer
   for a user document at most 300 s and a role document at most 600 s older than their reads.
   */
  lemma ValidatedUserIsRecent(r: Run, k: nat, m: nat, id: string)
    requires r.Timely() && k < m < |r.ops| && r.ops[k].Read? && r.ops[k].key == UserKey(id) && r.ops[m].Read?
    requires r.Served(k).Some? && r.Served(k).value.UserValue?
    requires r.ops[m].key == RoleKey(r.Served(k).value.user.role)
    ensures exists i, j :: 0 <= i <= k && 0 <= j <= m
                           && r.ops[k].at - r.ops[i].at <= 300 * 1000 && r.ops[m].at - r.ops[j].at <= 600 * 1000
                           && Validated(r, k, m) == Merged(r.DbAt(i), r.DbAt(j), id)
  {
    hide Run.Served, Run.DbAt, Truth, Validated, Merged;
    RolesAreAlwaysServed(r, m);
    StalenessIsBounded(r, k);
    StalenessIsBounded(r, m);
    var i :| 0 <= i <= k && Truth(r.DbAt(i), r.ops[k].key) == r.Served(k)
             && r.ops[k].at - r.ops[i].at <= 300 * 1000;
    var j :| 0 <= j <= m && Truth(r.DbAt(j), r.ops[m].key) == r.Served(m)
             && r.ops[m].at - r.ops[j].at <= 600 * 1000;
    TruthsMerge(r, k, m, r.DbAt(i), r.DbAt(j), id);
  }

  lemma TruthsMerge(r: Run, k: nat, m: nat, users: Db, roles: Db, id: string)
    requires k < |r.ops| && r.ops[k].Read? && r.ops[k].key == UserKey(id) && m < |r.ops| && r.ops[m].Read?
    requires r.Served(k).Some? && r.Served(k).value.UserValue?
    requires r.ops[m].key == RoleKey(r.Served(k).value.user.role)
    requires Truth(users, r.ops[k].key) == r.Served(k) && Truth(roles, r.ops[m].key) == r.Served(m)
    ensures Validated(r, k, m) == Merged(users, roles, id)
  {
    hide Run.Served, MergeEffectivePermissions;
  }

  lemma RolesAreAlwaysServed(r: Run, m: nat)
    requires m < |r.ops| && r.ops[m].Read? && r.ops[m].key.RoleKey?
    ensures r.Served(m).Some?
  {
  }

  /** A permission document carries the name it is found by. */
  ghost predicate Named(db: Db) {
    forall n :: n in db.permissions ==> db.permissions[n].name == n
  }

  function Without(xs: seq<string>, dropped: set<string>): (r: seq<string>)
    ensures forall x :: x in r <==> x in xs && x !in dropped
  {
    if xs == [] then []
    else (if xs[0] in dropped then [] else [xs[0]]) + Without(xs[1..], dropped)
  }

  predicate NoRepeats(xs: seq<string>) {
    xs == [] || (xs[0] !in xs[1..] && NoRepeats(xs[1..]))
  }

  lemma {:induction false} DistinctHasNoRepeats(xs: seq<string>)
    requires forall i, j :: 0 <= i < j < |xs| ==> xs[i] != xs[j]
    ensures NoRepeats(xs)
  {
    if xs != [] {
      var rest := xs[1..];
      forall j | 0 <= j < |rest| ensures rest[j] != xs[0] {
        assert xs[j + 1] == rest[j];
      }
      forall i, j | 0 <= i < j < |rest| ensures rest[i] != rest[j] {
        assert xs[i + 1] == rest[i] && xs[j + 1] == rest[j];
      }
      DistinctHasNoRepeats(rest);
    }
  }

  lemma FirstLater(xs: seq<string>, x: string)
    requires xs != [] && x in xs[1..] && x != xs[0]
    ensures x in xs && First(xs, x) == 1 + First(xs[1..], x)
  {
  }

  lemma KeptElement(xs: seq<string>, dropped: set<string>, i: nat)
    requires i < |Without(xs, dropped)|
    ensures Without(xs, dropped)[i] in xs && Without(xs, dropped)[i] !in dropped
  {
    assert Without(xs, dropped)[i] in Without(xs, dropped);
  }

  /** What is kept keeps its order. */
  lemma {:induction false} WithoutKeepsOrder(
    xs: seq<string>, dropped: set<string>, i: nat, j: nat, a: string, b: string
  )
    requires i < j < |Without(xs, dropped)| && NoRepeats(xs)
    requires Without(xs, dropped)[i] == a && Without(xs, dropped)[j] == b
    ensures a in xs && b in xs && First(xs, a) < First(xs, b)
    decreases |xs|
  {
    if xs[0] in dropped {
      KeptElement(xs, dropped, i);
      KeptElement(xs, dropped, j);
      WithoutKeepsOrder(xs[1..], dropped, i, j, a, b);
      FirstLater(xs, a);
      FirstLater(xs, b);
    } else {
      KeptElement(xs[1..], dropped, j - 1);
      assert b == Without(xs[1..], dropped)[j - 1];
      FirstLater(xs, b);
      if i > 0 {
        KeptElement(xs[1..], dropped, i - 1);
        WithoutKeepsOrder(xs[1..], dropped, i - 1, j - 1, a, b);
        FirstLater(xs, a);
      }
    }
  }

  /** The rejected names are reported in the order in which they were first given. */
  lemma RejectedKeepTheirOrder(names: seq<string>, known: set<string>, i: nat, j: nat)
    requires i < j < |Without(Dedup(names), known)|
    ensures var rejected := Without(Dedup(names), known);
            rejected[i] in names && rejected[j] in names && First(names, rejected[i]) < First(names, rejected[j])
  {
    var d, rejected := Dedup(names), Without(Dedup(names), known);
    DedupElements(names);
    DistinctHasNoRepeats(d);
    WithoutKeepsOrder(d, known, i, j, rejected[i], rejected[j]);
    DedupKeepsFirsts(names, First(d, rejected[i]), First(d, rejected[j]));
  }

  /** The role of `name`, seen through a served value. */
  function PermissionsOf(role: Option<Value>): seq<string> {
    match role
    case Some(RoleValue(Some(r))) => r.permissionIds
    case _ => []
  }

  datatype RoleError = NotAList | UnknownPermissions(names: seq<string>)

  class AccessService {
    const cache: CacheService<Value>
    var db: Db
    /** The role collection's `_id` index: each document's id, and the unique name it carries. */
    var roleNames: map<string, string>

    constructor (cache: CacheService<Value>, db: Db, roleNames: map<string, string>)
      ensures this.cache == cache && this.db == db && this.roleNames == roleNames
    {
      this.cache, this.db, this.roleNames := cache, db, roleNames;
    }

    predicate Indexed()
      reads this
    {
      forall id :: id in roleNames ==> roleNames[id] in db.roles
    }

    /** The body `findByName` and `validateUser` share: cache, then database, then store. */
    method FindThroughCache(key: CacheKey, now: Instant, faults: Faults) returns (r: Option<Value>)
      modifies cache
      ensures (r, cache.cells) == Fetch(db, old(cache.cells), key, now, faults)
    {
      var cached := cache.Get(KeyText(key), now, faults);
      if cached.Some? {
        return cached;
      }
      r := Truth(db, key);
      if r.Some? {
        cache.Set(KeyText(key), r.value, Some(TtlMs(key)), now, faults);
      }
    }

    method GetPermissionsForRole(name: string, now: Instant, faults: Faults) returns (permissions: seq<string>)
      modifies cache
      ensures var f := Fetch(db, old(cache.cells), RoleKey(name), now, faults);
              permissions == PermissionsOf(f.0) && cache.cells == f.1
    {
      var role := FindThroughCache(RoleKey(name), now, faults);
      permissions := PermissionsOf(role);
    }

    /**
     The user with effective permissions. Over a coherent cache this is exactly the current user
     document with its current role's permissions merged in, whatever hits, misses or fails.
     */
    method ValidateUser(id: string, now: Instant, end: Instant, userFaults: Faults, roleFaults: Faults)
      returns (r: Result<Account, DomainError>)
      modifies cache
      ensures var u := Fetch(db, old(cache.cells), UserKey(id), now, userFaults);
              match u.0
              case Some(UserValue(user)) =>
                var role := Fetch(db, u.1, RoleKey(user.role), end, roleFaults);
                && cache.cells == role.1
                && r == Ok(user.(permissions := MergeEffectivePermissions(PermissionsOf(role.0), user.permissions)))
              case _ => r == Err(UserNotFound) && cache.cells == u.1
      ensures Coherent(db, old(cache.cells)) ==>
                && Coherent(db, cache.cells)
                && r == if id !in db.users then Err(UserNotFound)
                        else
                          var user := db.users[id];
                          var granted := if user.role in db.roles then db.roles[user.role].permissionIds else [];
                          Ok(user.(permissions := MergeEffectivePermissions(granted, user.permissions)))
      ensures Coherent(db, old(cache.cells)) && id in db.users ==>
                var user := db.users[id];
                var granted := if user.role in db.roles then db.roles[user.role].permissionIds else [];
                r.Ok? && r.value == user.(permissions := r.value.permissions)
                && Effective(r.value.permissions, granted, user.permissions)
    {
      ghost var before := cache.cells;
      var found := FindThroughCache(UserKey(id), now, userFaults);
      ghost var between := cache.cells;
      if Coherent(db, before) {
        FetchIsExact(db, before, UserKey(id), now, userFaults);
      }
      if found.None? || !found.value.UserValue? {
        return Err(UserNotFound);
      }
      var user := found.value.user;
      var granted := GetPermissionsForRole(user.role, end, roleFaults);
      if Coherent(db, before) {
        FetchIsExact(db, between, RoleKey(user.role), end, roleFaults);
      }
      MergedIsEffective(granted, user.permissions);
      r := Ok(user.(permissions := MergeEffectivePermissions(granted, user.permissions)));
    }

    /** The cached answer for one name; over a coherent cache a hit is the catalog's own answer. */
    method ReadPermission(name: string, now: Instant, faults: Faults) returns (cached: Option<Option<Permission>>)
      requires Coherent(db, cache.cells)
      modifies cache
      ensures cached.Some? ==> cached.value == Find(db.permissions, name)
      ensures Coherent(db, cache.cells)
    {
      PermissionReadIsTrue(db, cache.cells, name, now, faults);
      var hit := cache.Get(KeyText(PermissionKey(name)), now, faults);
      cached := if hit.Some? then Some(hit.value.permission) else None;
    }

    /** Caches the catalog's answer for one name, null included. */
    method StorePermission(name: string, permission: Option<Permission>, now: Instant, faults: Faults)
      requires Coherent(db, cache.cells) && permission == Find(db.permissions, name)
      modifies cache
      ensures Coherent(db, cache.cells)
      ensures !faults.write ==>
                Lookup(cache.cells, StoredKey(PermissionKey(name)), now) == Some(PermissionValue(permission))
    {
      SetKeepsCoherent(db, cache.cells, PermissionKey(name), now);
      cache.Set(KeyText(PermissionKey(name)), PermissionValue(permission), Some(900 * 1000), now, faults);
    }

    /**
     Per-name cache reads, one query for the misses, and a store per miss. The answers are those of
     the names one by one, nulls and repetitions included, in some order, whichever reads hit or fail.
     */
    method FindPermissionsByNames(names: seq<string>, now: Instant, readFails: nat -> bool, writeFails: string -> bool)
      returns (results: seq<Option<Permission>>)
      requires Coherent(db, cache.cells)
      modifies cache
      ensures multiset(results) == multiset(Answers(db, names))
      ensures Coherent(db, cache.cells)
    {
      results := [];
      if |names| == 0 {
        return;
      }
      var missing: seq<string> := [];
      for i := 0 to |names|
        invariant Coherent(db, cache.cells)
        invariant Tally(db, results, missing) == Tally(db, [], names[..i])
      {
        var name := names[i];
        assert names[..i] + [name] == names[..i + 1];
        TallyAsked(db, names[..i], name);
        var cached := ReadPermission(name, now, Faults(readFails(i), readFails(i)));
        if cached.Some? {
          TallyHit(db, results, missing, cached.value);
          results := results + [cached.value];
        } else {
          TallyMiss(db, results, missing, name);
          missing := missing + [name];
        }
      }
      assert names[..|names|] == names;
      for j := 0 to |missing|
        invariant Coherent(db, cache.cells)
        invariant Tally(db, results, missing[j..]) == Tally(db, [], names)
      {
        var name := missing[j];
        TallyLoaded(db, results, missing[j..]);
        assert missing[j..][1..] == missing[j + 1..];
        var permission := Find(db.permissions, name);
        results := results + [permission];
        StorePermission(name, permission, now, Faults(false, writeFails(name)));
      }
      assert results + Answers(db, missing[|missing|..]) == results;
      assert [] + Answers(db, names) == Answers(db, names);
    }

    /**
     The catalog check accepts exactly when every name but the wildcard exists, and answers with the
     ordered deduplication; otherwise it names exactly the unknown ones, in order. Neither depends on the cache.
     */
    method AssertPermissionsExist(permissionIds: seq<string>, now: Instant,
                                  readFails: nat -> bool, writeFails: string -> bool)
      returns (r: Result<seq<string>, seq<string>>)
      requires Coherent(db, cache.cells) && Named(db)
      modifies cache
      ensures Coherent(db, cache.cells)
      ensures r.Ok? <==> forall n :: n in permissionIds ==> n == "*" || n in db.permissions
      ensures r == var unknown := Without(Dedup(permissionIds), db.permissions.Keys + {WILDCARD_PERMISSION});
                   if unknown == [] then Ok(Dedup(permissionIds)) else Err(unknown)
    {
      var deduplicated := Dedup(permissionIds);
      DedupElements(permissionIds);
      if |deduplicated| == 0 {
        return Ok([]);
      }
      var candidates := Without(deduplicated, {WILDCARD_PERMISSION});
      var catalog := FindPermissionsByNames(candidates, now, readFails, writeFails);
      var known := set p | p in catalog && p.Some? :: p.value.name;
      KnownNames(db, candidates, catalog);
      var rejected := Without(deduplicated, known + {WILDCARD_PERMISSION});
      SameRejected(deduplicated, known, db.permissions.Keys, candidates);
      r := if rejected == [] then Ok(deduplicated) else Err(rejected);
    }

    /** Any change of one user document through the user service: write, then invalidate. */
    method WriteUser(id: string, doc: Account, faults: Faults)
      requires '*' !in id && Coherent(db, cache.cells)
      modifies this`db, cache
      ensures db == old(db).(users := old(db).users[id := doc])
      ensures !faults.write ==> Coherent(db, cache.cells)
    {
      ghost var before := db;
      ghost var cells := cache.cells;
      db := db.(users := db.users[id := doc]);
      var _ := cache.HandleInvalidationPayload(PatternOf(OneUser(id)), faults);
      if !faults.write {
        UserWriteIsCovered(before, id, doc);
        ChangeKeepsCoherent(before, db, cells, [OneUser(id)]);
        assert cache.cells == Purged(cells, [OneUser(id)]) by {
          forall stored ensures Reaches([OneUser(id)], stored) <==> Invalidates(PatternOf(OneUser(id)), stored) {
            assert [OneUser(id)][0] == OneUser(id);
          }
        }
      }
    }

    /**
     Stores a validated permission list on the role with an id; an unknown id changes nothing. A
     missing list and a list with unknown names are refused, in that order.
     */
    method UpdateRolePermissions(roleId: string, permissionIds: Option<seq<string>>, now: Instant, faults: Faults,
                                 readFails: nat -> bool, writeFails: string -> bool)
      returns (r: Result<Option<Role>, RoleError>)
      requires Coherent(db, cache.cells) && Named(db) && Indexed()
      modifies this`db, cache
      ensures Indexed()
      ensures r.Err? ==> db == old(db) && Coherent(db, cache.cells)
      ensures permissionIds.None? ==> r == Err(NotAList)
      ensures permissionIds.Some? ==>
                var unknown := Without(Dedup(permissionIds.value), old(db).permissions.Keys + {WILDCARD_PERMISSION});
                if unknown != [] then r == Err(UnknownPermissions(unknown))
                else
                  && r.Ok?
                  && (r.value.Some? <==> roleId in roleNames)
                  && (r.value.None? ==> db == old(db))
                  && (r.value.Some? ==>
                        var name := roleNames[roleId];
                        && r.value.value == old(db).roles[name].(permissionIds := Dedup(permissionIds.value))
                        && db == old(db).(roles := old(db).roles[name := r.value.value]))
                  && (!faults.write ==> Coherent(db, cache.cells))
    {
      if permissionIds.None? {
        return Err(NotAList);
      }
      var validated := AssertPermissionsExist(permissionIds.value, now, readFails, writeFails);
      if validated.Err? {
        return Err(UnknownPermissions(validated.error));
      }
      if roleId !in roleNames {
        return Ok(None);
      }
      var name := roleNames[roleId];
      ghost var before := db;
      ghost var cells := cache.cells;
      var updated := db.roles[name].(permissionIds := validated.value);
      db := db.(roles := db.roles[name := updated]);
      var _ := cache.HandleInvalidationPayload(PatternOf(AllRbac), faults);
      ghost var between := cache.cells;
      var _ := cache.HandleInvalidationPayload(PatternOf(AllUsers), faults);
      if !faults.write {
        RoleWriteIsCovered(before, db.roles);
        ChangeKeepsCoherent(before, db, cells, [AllRbac, AllUsers]);
        assert cache.cells == Purged(cells, [AllRbac, AllUsers]) by { TwoPatterns(AllRbac, AllUsers); }
      }
      r := Ok(Some(updated));
    }
  }

  lemma TwoPatterns(a: Emitted, b: Emitted)
    ensures forall stored ::
              Reaches([a, b], stored) <==> Invalidates(PatternOf(a), stored) || Invalidates(PatternOf(b), stored)
  {
    forall stored
      ensures Reaches([a, b], stored) <==> Invalidates(PatternOf(a), stored) || Invalidates(PatternOf(b), stored)
    {
      assert [a, b][0] == a && [a, b][1] == b;
    }
  }

  /** A permission read from a coherent cache is the catalog's answer, and reading keeps it coherent. */
  lemma PermissionReadIsTrue(db: Db, cells: Cells<Value>, name: string, now: Instant, faults: Faults)
    requires Coherent(db, cells)
    ensures Coherent(db, AfterGet(cells, StoredKey(PermissionKey(name)), now, faults))
    ensures var hit := Lookup(cells, StoredKey(PermissionKey(name)), now);
            hit.Some? ==> hit == Some(PermissionValue(Find(db.permissions, name)))
  {
    var key := PermissionKey(name);
    assert EntryIsTrue(db, cells, key);
    forall other ensures EntryIsTrue(db, AfterGet(cells, StoredKey(key), now, faults), other) {
      assert EntryIsTrue(db, cells, other);
    }
  }

  lemma SetKeepsCoherent(db: Db, cells: Cells<Value>, key: CacheKey, now: Instant)
    requires Coherent(db, cells) && Truth(db, key).Some?
    ensures Coherent(db, cells[StoredKey(key) := Stored(Truth(db, key).value, TtlMs(key), now)])
  {
    var after := cells[StoredKey(key) := Stored(Truth(db, key).value, TtlMs(key), now)];
    forall other ensures EntryIsTrue(db, after, other) {
      assert EntryIsTrue(db, cells, other);
      if StoredKey(other) == StoredKey(key) {
        StoredKeyIsInjective(other, key);
      }
    }
  }

  /** The names found are the candidates in the catalog, whatever order they came in. */
  lemma KnownNames(db: Db, candidates: seq<string>, catalog: seq<Option<Permission>>)
    requires Named(db) && multiset(catalog) == multiset(Answers(db, candidates))
    ensures (set p | p in catalog && p.Some? :: p.value.name) == set n | n in candidates && n in db.permissions
  {
    var answers := Answers(db, candidates);
    assert forall p :: p in catalog <==> p in multiset(catalog);
    assert forall p :: p in answers <==> p in multiset(answers);
    forall n | n in candidates && n in db.permissions
      ensures exists p :: p in catalog && p.Some? && p.value.name == n
    {
      var i :| 0 <= i < |candidates| && candidates[i] == n;
      assert answers[i] == Some(db.permissions[n]);
      assert Some(db.permissions[n]) in catalog;
    }
    forall p | p in catalog && p.Some?
      ensures p.value.name in candidates && p.value.name in db.permissions
    {
      assert p in answers;
      var i :| 0 <= i < |answers| && answers[i] == p;
      assert candidates[i] in db.permissions;
    }
  }

  lemma {:induction false} WithoutSame(xs: seq<string>, a: set<string>, b: set<string>)
    requires forall x :: x in xs ==> (x in a <==> x in b)
    ensures Without(xs, a) == Without(xs, b)
  {
    if xs != [] {
      assert xs[0] in xs && forall x :: x in xs[1..] ==> x in xs;
      WithoutSame(xs[1..], a, b);
    }
  }

  lemma SameRejected(xs: seq<string>, known: set<string>, catalog: set<string>, candidates: seq<string>)
    requires candidates == Without(xs, {WILDCARD_PERMISSION})
    requires known == set n | n in candidates && n in catalog
    ensures Without(xs, known + {WILDCARD_PERMISSION}) == Without(xs, catalog + {WILDCARD_PERMISSION})
    ensures Without(xs, known + {WILDCARD_PERMISSION}) == []
            <==> forall x :: x in xs ==> x == WILDCARD_PERMISSION || x in catalog
  {
    WithoutSame(xs, known + {WILDCARD_PERMISSION}, catalog + {WILDCARD_PERMISSION});
    var rest := Without(xs, catalog + {WILDCARD_PERMISSION});
    if rest != [] {
      assert rest[0] in rest;
    }
  }
}
