/**
 The parameter store and service as they run: environment overrides, Redis outages, the listing
 of all parameters, and the admin update built on them.
 */
module ParameterServices {
  import opened Prelude
  import opened Parameters
  import opened ParameterDefinitions

  /** What the admin listing shows for one parameter. */
  datatype Shown = Shown(value: Value, isOverridden: bool)

  /** What one instance knows at startup: the registry, the environment and the language's number texts. */
  datatype Setup = Setup(numbers: NumberText, registry: map<string, Definition>, env: map<string, string>) {

    /** `getTTL(key) ?? 300`. */
    function TtlOf(key: string): nat {
      if key in registry then registry[key].ttl else 300
    }

    function Coerce(key: string, text: string): Result<Value, ParameterError> {
      if key in registry then CoerceValue(numbers, registry[key].kind, text) else Ok(Str(text))
    }

    function Copy(key: string, v: Value, now: Instant): L1Entry {
      L1Entry(v, now + TtlOf(key) * 1000)
    }

    function TextOf(key: string, v: Value, now: Instant): Text {
      Text(Show(numbers, v), if TtlOf(key) == 0 then None else Some(now + TtlOf(key) * 1000))
    }

    /** `get`, on the key's text in Redis and this instance's copy, which the world lists as instance 0. */
    function Read(w: World, key: string, now: Instant, faults: Faults): (Result<Value, ParameterError>, World) {
      var cleared := World(w.redis, w.l1 - {0});
      if L1Hit(w, 0, now) then (Ok(w.l1[0].value), w)
      else if key in env then
        var v := Coerce(key, env[key]);
        (v, if v.Ok? then World(w.redis, cleared.l1[0 := Copy(key, v.value, now)]) else cleared)
      else if faults.read then (if key in registry then Ok(registry[key].default) else Err(NotInRegistry), cleared)
      else if RedisHit(w, now) then
        var v := Coerce(key, w.redis.value.text);
        (v, if v.Ok? then World(w.redis, cleared.l1[0 := Copy(key, v.value, now)]) else cleared)
      else if key !in registry then (Err(NotInRegistry), cleared)
      else
        var v := registry[key].default;
        (Ok(v), World(if faults.write then w.redis else Some(TextOf(key, v, now)), cleared.l1[0 := Copy(key, v, now)]))
    }

    /** `set`: through to Redis, or into the local copy alone while Redis is down. */
    function Stored(w: World, key: string, v: Value, now: Instant, faults: Faults): World {
      if faults.write then World(w.redis, w.l1[0 := Copy(key, v, now)])
      else World(Some(TextOf(key, v, now)), w.l1 - {0})
    }

    /** The entry the listing builds from what a read returned. */
    function Listed(key: string, read: Result<Value, ParameterError>): Shown
      requires key in registry
    {
      var d := registry[key].default;
      if read.Err? then Shown(d, false) else Shown(read.value, Show(numbers, read.value) != Show(numbers, d))
    }

    /** `update`, on the updated key alone. */
    function Updated(w: World, key: string, raw: string, now: Instant, faults: Faults)
      : (Result<Shown, ParameterError>, World)
    {
      if key !in registry then (Err(NotFound), w)
      else
        var (current, seen) := Read(w, key, now, faults);
        if Listed(key, current).isOverridden then (Err(Overridden), seen)
        else
          var v := ValidateAndCoerce(numbers, registry[key], raw);
          if v.Err? then (Err(v.error), seen)
          else if !registry[key].validate(v.value) then (Err(ValidationFailed), seen)
          else
            var (after, world) := Read(Stored(seen, key, v.value, now, faults), key, now, faults);
            (Ok(Listed(key, after)), world)
    }
  }

  // ---- the rules above are the multi-instance ones while nothing fails -----------------------------------

  const NO_FAULTS: Faults := Faults(false, false)

  lemma ReadsAsOneInstance(s: Setup, w: World, key: string, now: Instant)
    requires key in s.registry && key !in s.env
    ensures s.Read(w, key, now, NO_FAULTS) == Get(s.numbers, s.registry[key], w, 0, now)
  {
    var read := s.Read(w, key, now, NO_FAULTS).0;
    if read.Ok? {
      var copy := s.Copy(key, read.value, now);
      assert (w.l1 - {0})[0 := copy] == w.l1[0 := copy];
    }
  }

  /** The text of an admin update passes both validations, as the value `v`. */
  predicate Accepts(s: Setup, key: string, raw: string, v: Value) {
    key in s.registry && ValidateAndCoerce(s.numbers, s.registry[key], raw) == Ok(v) && s.registry[key].validate(v)
  }

  /** The guard of `update` lets the key through. */
  predicate Unblocked(s: Setup, w: World, key: string, now: Instant) {
    key in s.registry && !s.Listed(key, s.Read(w, key, now, NO_FAULTS).0).isOverridden
  }

  /** Only number parameters need a law about numbers. */
  ghost predicate NumbersLawfulFor(s: Setup, key: string)
    requires key in s.registry
  {
    s.registry[key].kind == NumberType ==> s.numbers.Lawful()
  }

  /** The update is answered with its value, and a read at `later` still returns it. */
  predicate UpdateServed(s: Setup, w: World, key: string, raw: string, v: Value, now: Instant, later: Instant)
    requires key in s.registry
  {
    var (r, after) := s.Updated(w, key, raw, now, NO_FAULTS);
    && r == Ok(Shown(v, Show(s.numbers, v) != Show(s.numbers, s.registry[key].default)))
    && s.Read(after, key, later, NO_FAULTS).0 == Ok(v)
  }

  lemma AcceptedIsStorable(s: Setup, key: string, raw: string, v: Value)
    requires Accepts(s, key, raw, v) && NumbersLawfulFor(s, key)
    ensures HasType(s.registry[key].kind, v) && Storable(s.numbers, v)
  {
    if v.Num? {
      assert s.numbers.parse(raw) == Some(v.number);
    }
  }

  /**
   An accepted update is answered with the new value, and the instance keeps serving it for the
   parameter's lifetime, exactly when the value is finite. A validator that lets an infinite
   number pass has it answered with the default, and then no read succeeds until it expires.
   */
  lemma UpdateReadsBack(s: Setup, w: World, key: string, raw: string, v: Value, now: Instant, later: Instant)
    requires Accepts(s, key, raw, v) && NumbersLawfulFor(s, key) && key !in s.env && Unblocked(s, w, key, now)
    requires now <= later < now + LifeMs(s.registry[key])
    ensures UpdateServed(s, w, key, raw, v, now, later) <==> !IsInfinite(v)
    ensures IsInfinite(v) ==>
              var (r, after) := s.Updated(w, key, raw, now, NO_FAULTS);
              && r == Ok(Shown(s.registry[key].default, false))
              && s.Read(after, key, later, NO_FAULTS).0 == Err(InvalidOverride)
  {
    AcceptedIsStorable(s, key, raw, v);
    CoerceUndoesString(s.numbers, s.registry[key].kind, v);
  }

  /** Every accepted update of the key, from every state and at every moment, is served for its whole lifetime. */
  ghost predicate UpdatesAreServed(s: Setup, key: string)
    requires key in s.registry
  {
    forall w, raw, v, now, later ::
      Accepts(s, key, raw, v) && Unblocked(s, w, key, now) && now <= later < now + LifeMs(s.registry[key]) ==>
        UpdateServed(s, w, key, raw, v, now, later)
  }

  /**
   For a number parameter, all accepted updates are served exactly when its validator refuses both
   infinities; `validateAndCoerce` itself only refuses the negative one, and only for `THROTTLE_LIMIT`.
   */
  lemma ServedIffInfinityIsRefused(s: Setup, key: string)
    requires key in s.registry && key !in s.env && s.numbers.Lawful()
    requires var d := s.registry[key]; d.kind == NumberType && d.key == key && d.ttl > 0
    requires s.numbers.parse("Infinity") == Some(Infinite(true))
    requires s.numbers.parse("-Infinity") == Some(Infinite(false))
    ensures UpdatesAreServed(s, key)
            <==> && !s.registry[key].validate(Num(Infinite(true)))
                 && (key == "THROTTLE_LIMIT" || !s.registry[key].validate(Num(Infinite(false))))
  {
    var d := s.registry[key];
    forall p: bool | d.validate(Num(Infinite(p))) && (p || key != "THROTTLE_LIMIT") ensures !UpdatesAreServed(s, key) {
      var w, raw, v := World(None, map[]), if p then "Infinity" else "-Infinity", Num(Infinite(p));
      assert Unblocked(s, w, key, 0) && Accepts(s, key, raw, v);
      UpdateReadsBack(s, w, key, raw, v, 0, 0);
      assert !UpdateServed(s, w, key, raw, v, 0, 0);
    }
    forall w, raw, v, now, later
      | Accepts(s, key, raw, v) && !IsInfinite(v) && Unblocked(s, w, key, now) && now <= later < now + LifeMs(d)
      ensures UpdateServed(s, w, key, raw, v, now, later)
    {
      UpdateReadsBack(s, w, key, raw, v, now, later);
    }
  }

  /** Every accepted update of a parameter the program registers is served for its whole five minutes. */
  lemma RegisteredUpdatesAreServed(s: Setup, key: string)
    requires s.registry == REGISTRY && key in s.registry && key !in s.env && NumbersLawfulFor(s, key)
    ensures UpdatesAreServed(s, key)
  {
    forall w, raw, v, now, later
      | Accepts(s, key, raw, v) && Unblocked(s, w, key, now) && now <= later < now + LifeMs(s.registry[key])
      ensures UpdateServed(s, w, key, raw, v, now, later)
    {
      AcceptedIsStorable(s, key, raw, v);
      AdmittedNumbersAreFinite(key, v);
      UpdateReadsBack(s, w, key, raw, v, now, later);
    }
  }

  /** An infinite number is refused for every registered parameter, and nothing is stored. */
  lemma RegisteredUpdatesRefuseInfinity(s: Setup, w: World, key: string, raw: string, now: Instant)
    requires s.registry == REGISTRY && key in s.registry && s.registry[key].kind == NumberType
    requires Unblocked(s, w, key, now)
    requires s.numbers.parse(raw).Some? && s.numbers.parse(raw).value.Infinite?
    ensures var (r, after) := s.Updated(w, key, raw, now, NO_FAULTS);
            r in [Err(ValidationFailed), Err(ValueInvalid)] && after == s.Read(w, key, now, NO_FAULTS).1
  {
    var v := Num(s.numbers.parse(raw).value);
    if s.registry[key].validate(v) {
      AdmittedNumbersAreFinite(key, v);
    }
  }

  /**
   After an accepted update, the next update of that parameter is refused as overridden for the
   rest of its lifetime exactly when the first one moved it off its default to a readable value:
   the guard reads any value other than the default as an environment override.
   */
  lemma UpdateBlocksTheNext(s: Setup, w: World, key: string, raw: string, v: Value, next: string,
                            now: Instant, later: Instant)
    requires Accepts(s, key, raw, v) && NumbersLawfulFor(s, key) && key !in s.env && Unblocked(s, w, key, now)
    requires now <= later < now + LifeMs(s.registry[key])
    ensures s.Updated(s.Updated(w, key, raw, now, NO_FAULTS).1, key, next, later, NO_FAULTS).0 == Err(Overridden)
            <==> !IsInfinite(v) && Show(s.numbers, v) != Show(s.numbers, s.registry[key].default)
  {
    UpdateReadsBack(s, w, key, raw, v, now, later);
    NoUpdateErrorIsOverridden(s, key, next);
  }

  /** For instance: `EMAIL_HOST` set to "mail" at 0 s cannot be set again at 1 s, not even back to its default. */
  lemma SecondUpdateIsRefused(s: Setup)
    requires s.registry == REGISTRY && "EMAIL_HOST" !in s.env
    ensures var (first, after) := s.Updated(World(None, map[]), "EMAIL_HOST", "mail", 0, NO_FAULTS);
            && first == Ok(Shown(Str("mail"), true))
            && s.Updated(after, "EMAIL_HOST", "smtp", 1000, NO_FAULTS).0 == Err(Overridden)
  {
    var w, key, v := World(None, map[]), "EMAIL_HOST", Str("mail");
    UpdateReadsBack(s, w, key, "mail", v, 0, 1000);
    UpdateBlocksTheNext(s, w, key, "mail", v, "smtp", 0, 1000);
  }

  lemma NoUpdateErrorIsOverridden(s: Setup, key: string, raw: string)
    requires key in s.registry
    ensures ValidateAndCoerce(s.numbers, s.registry[key], raw) != Err(Overridden)
  {
  }

  /** Typing the text of a value that the validator admits stores, answers and serves that value. */
  lemma TypedValueIsServed(s: Setup, w: World, key: string, v: Value, now: Instant, later: Instant)
    requires key in s.registry && key !in s.env && Unblocked(s, w, key, now) && s.registry[key].key == key
    requires HasType(s.registry[key].kind, v) && Storable(s.numbers, v) && NumbersLawfulFor(s, key)
    requires s.registry[key].validate(v) && !IsInfinite(v)
    requires !(v.Num? && key == "THROTTLE_LIMIT" && NotPositive(v.number))
    requires now <= later < now + LifeMs(s.registry[key])
    ensures UpdateServed(s, w, key, Show(s.numbers, v), v, now, later)
  {
    ValidateUndoesString(s.numbers, s.registry[key], v);
    UpdateReadsBack(s, w, key, Show(s.numbers, v), v, now, later);
  }

  /** For a shipped parameter, every value its validator admits can be typed. */
  lemma RegisteredValuesCanBeTyped(s: Setup, w: World, key: string, v: Value, now: Instant, later: Instant)
    requires s.registry == REGISTRY && key in s.registry && key !in s.env && Unblocked(s, w, key, now)
    requires HasType(s.registry[key].kind, v) && Storable(s.numbers, v) && s.registry[key].validate(v)
    requires now <= later < now + LifeMs(s.registry[key])
    ensures UpdateServed(s, w, key, Show(s.numbers, v), v, now, later)
  {
    DefaultsAreValid(key);
    AdmittedNumbersAreFinite(key, v);
    TypedValueIsServed(s, w, key, v, now, later);
  }

  /** For instance: typing "true" turns `EMAIL_SECURE` on. */
  lemma SecureIsTurnedOn(s: Setup)
    requires s.registry == REGISTRY && "EMAIL_SECURE" !in s.env
    ensures var (r, after) := s.Updated(World(None, map[]), "EMAIL_SECURE", "true", 0, NO_FAULTS);
            && r == Ok(Shown(Bool(true), true))
            && s.Read(after, "EMAIL_SECURE", 1000, NO_FAULTS).0 == Ok(Bool(true))
  {
    TypedValueIsServed(s, World(None, map[]), "EMAIL_SECURE", Bool(true), 0, 1000);
  }

  // ---- environment overrides ---------------------------------------------------------------------------------

  /** Any local copy holds what the environment says. */
  predicate CopyIsOverride(s: Setup, w: World, key: string)
    requires key in s.env
  {
    0 in w.l1 ==> Ok(w.l1[0].value) == s.Coerce(key, s.env[key])
  }

  /**
   An environment variable wins over Redis and the default at every read, whatever fails. Reads keep it
   so, and so does a set that reaches Redis; only a set during an outage puts its own value in front.
   */
  lemma EnvironmentWins(s: Setup, w: World, key: string, v: Value, now: Instant, faults: Faults)
    requires key in s.env && CopyIsOverride(s, w, key)
    ensures s.Read(w, key, now, faults).0 == s.Coerce(key, s.env[key])
    ensures CopyIsOverride(s, s.Read(w, key, now, faults).1, key) && s.Read(w, key, now, faults).1.redis == w.redis
    ensures CopyIsOverride(s, s.Stored(w, key, v, now, faults), key)
            <==> !faults.write || Ok(v) == s.Coerce(key, s.env[key])
  {
  }

  // ---- the services ------------------------------------------------------------------------------------------

  /** The shared Redis, by parameter key. */
  class RedisTexts {
    var texts: map<string, Text>

    constructor ()
      ensures texts == map[]
    {
      texts := map[];
    }
  }

  class ParameterStore {
    const setup: Setup
    const redis: RedisTexts
    var l1: map<string, L1Entry>

    constructor (setup: Setup, redis: RedisTexts)
      ensures this.setup == setup && this.redis == redis && l1 == map[]
    {
      this.setup, this.redis, l1 := setup, redis, map[];
    }

    /** One key's text and this instance's copy of it. */
    function View(key: string): World
      reads this, redis
    {
      World(if key in redis.texts then Some(redis.texts[key]) else None, if key in l1 then map[0 := l1[key]] else map[])
    }

    /** Keeps a copy for the parameter's lifetime. */
    method Keep(key: string, value: Value, now: Instant)
      modifies this`l1
      ensures View(key) == World(old(View(key)).redis, old(View(key)).l1[0 := setup.Copy(key, value, now)])
      ensures forall other :: other != key ==> View(other) == old(View(other))
    {
      l1 := l1[key := setup.Copy(key, value, now)];
      assert View(key).l1 == old(View(key)).l1[0 := setup.Copy(key, value, now)];
    }

    method Get(key: string, now: Instant, faults: Faults) returns (r: Result<Value, ParameterError>)
      modifies this`l1, redis
      ensures (r, View(key)) == setup.Read(old(View(key)), key, now, faults)
      ensures forall other :: other != key ==> View(other) == old(View(other))
    {
      if key in l1 && now < l1[key].expiresAt {
        return Ok(l1[key].value);
      }
      l1 := l1 - {key};
      assert View(key) == World(old(View(key)).redis, old(View(key)).l1 - {0});
      if key in setup.env {
        r := setup.Coerce(key, setup.env[key]);
        if r.Ok? {
          Keep(key, r.value, now);
        }
        return;
      }
      if faults.read {
        return if key in setup.registry then Ok(setup.registry[key].default) else Err(NotInRegistry);
      }
      if key in redis.texts && (redis.texts[key].deadline.None? || now < redis.texts[key].deadline.value) {
        r := setup.Coerce(key, redis.texts[key].text);
        if r.Ok? {
          Keep(key, r.value, now);
        }
        return;
      }
      if key !in setup.registry {
        return Err(NotInRegistry);
      }
      var default := setup.registry[key].default;
      if !faults.write {
        redis.texts := redis.texts[key := setup.TextOf(key, default, now)];
      }
      Keep(key, default, now);
      r := Ok(default);
    }

    method Set(key: string, value: Value, now: Instant, faults: Faults)
      modifies this`l1, redis
      ensures View(key) == setup.Stored(old(View(key)), key, value, now, faults)
      ensures forall other :: other != key ==> View(other) == old(View(other))
    {
      if faults.write {
        l1 := l1[key := setup.Copy(key, value, now)];
        return;
      }
      redis.texts := redis.texts[key := setup.TextOf(key, value, now)];
      l1 := l1 - {key};
    }

    /** Removes the local copy in any case, and Redis' text unless Redis is down. */
    method Delete(key: string, faults: Faults)
      modifies this`l1, redis
      ensures View(key) == World(if faults.write then old(View(key)).redis else None, map[])
      ensures forall other :: other != key ==> View(other) == old(View(other))
    {
      l1 := l1 - {key};
      if !faults.write {
        redis.texts := redis.texts - {key};
      }
    }

    /** Reading many distinct keys is reading each one; a key that cannot be read is skipped. */
    method GetByKeys(keys: seq<string>, now: Instant, faults: Faults) returns (values: map<string, Value>)
      requires forall i, j :: 0 <= i < j < |keys| ==> keys[i] != keys[j]
      modifies this`l1, redis
      ensures forall key :: key in keys ==>
                var (read, after) := setup.Read(old(View(key)), key, now, faults);
                View(key) == after && (if key in values then read == Ok(values[key]) else read.Err?)
      ensures forall key :: key !in keys ==> View(key) == old(View(key)) && key !in values
    {
      values := map[];
      for i := 0 to |keys|
        invariant forall key :: key in keys[..i] ==>
                    var (read, after) := setup.Read(old(View(key)), key, now, faults);
                    View(key) == after && (if key in values then read == Ok(values[key]) else read.Err?)
        invariant forall key :: key !in keys[..i] ==> View(key) == old(View(key)) && key !in values
      {
        assert keys[i] !in keys[..i];
        var read := Get(keys[i], now, faults);
        if read.Ok? {
          values := values[keys[i] := read.value];
        }
        assert keys[..i + 1] == keys[..i] + [keys[i]];
      }
      assert keys[..|keys|] == keys;
    }
  }

  class ParameterService {
    const store: ParameterStore
    /** The registry's keys in registration order. */
    const keys: seq<string>

    constructor (store: ParameterStore, keys: seq<string>)
      ensures this.store == store && this.keys == keys
    {
      this.store, this.keys := store, keys;
    }

    ghost predicate Valid() {
      && (forall key :: key in keys <==> key in store.setup.registry)
      && forall i, j :: 0 <= i < j < |keys| ==> keys[i] != keys[j]
    }

    /** The listing: every registered parameter, the unreadable ones shown with their default. */
    method GetAll(now: Instant, faults: Faults) returns (entries: map<string, Shown>)
      requires Valid()
      modifies store`l1, store.redis
      ensures entries.Keys == store.setup.registry.Keys
      ensures forall key :: key in entries ==>
                var (read, after) := store.setup.Read(old(store.View(key)), key, now, faults);
                entries[key] == store.setup.Listed(key, read) && store.View(key) == after
      ensures forall key :: key !in store.setup.registry ==> store.View(key) == old(store.View(key))
    {
      var values := store.GetByKeys(keys, now, faults);
      entries := map key | key in store.setup.registry ::
        store.setup.Listed(key, if key in values then Ok(values[key]) else Err(InvalidOverride));
    }

    method Set(key: string, value: Value, now: Instant, faults: Faults) returns (r: Result<(), ParameterError>)
      modifies store`l1, store.redis
      ensures r.Ok? <==> key in store.setup.registry && store.setup.registry[key].validate(value)
      ensures r.Err? ==> r.error == if key in store.setup.registry then ValidationFailed else NotInRegistry
      ensures store.View(key)
              == if r.Ok? then store.setup.Stored(old(store.View(key)), key, value, now, faults)
                 else old(store.View(key))
      ensures forall other :: other != key ==> store.View(other) == old(store.View(other))
    {
      if key !in store.setup.registry {
        return Err(NotInRegistry);
      }
      if !store.setup.registry[key].validate(value) {
        return Err(ValidationFailed);
      }
      store.Set(key, value, now, faults);
      r := Ok(());
    }

    /** Updates one key; the listing before it, and the one after a success, read every other key. */
    method Update(key: string, raw: string, now: Instant, faults: Faults) returns (r: Result<Shown, ParameterError>)
      requires Valid()
      modifies store`l1, store.redis
      ensures (r, store.View(key)) == store.setup.Updated(old(store.View(key)), key, raw, now, faults)
      ensures forall other :: other != key ==>
                store.View(other)
                == if key !in store.setup.registry || other !in store.setup.registry then old(store.View(other))
                   else
                     var once := store.setup.Read(old(store.View(other)), other, now, faults).1;
                     if r.Err? then once else store.setup.Read(once, other, now, faults).1
    {
      hide Setup.Read, Setup.Stored, Setup.Listed;
      if key !in store.setup.registry {
        return Err(NotFound);
      }
      var entries := GetAll(now, faults);
      if entries[key].isOverridden {
        return Err(Overridden);
      }
      var coerced := ValidateAndCoerce(store.setup.numbers, store.setup.registry[key], raw);
      if coerced.Err? {
        return Err(coerced.error);
      }
      var stored := Set(key, coerced.value, now, faults);
      if stored.Err? {
        return Err(stored.error);
      }
      entries := GetAll(now, faults);
      r := Ok(entries[key]);
    }
  }
}
