/**
 The Redis cache: entries with their own expiry inside keys with another one, invalidation by
 exact key or by glob, and the sweep that removes what no read would return.
 */
module Cache {
  import opened Prelude

  const DEFAULT_PREFIX: string := "cache:"
  const DEFAULT_TTL_MS: int := 300 * 1000

  datatype Entry<V> = Entry(data: V, expiresAt: Option<Instant>)

  /** A stored text, as far as `JSON.parse` makes sense of it. */
  datatype Raw<V> = Parsed(entry: Entry<V>) | Corrupt

  /** A key's text and the instant Redis drops it. */
  datatype Cell<V> = Cell(raw: Raw<V>, deadline: Option<Instant>)

  type Cells<V> = map<string, Cell<V>>

  function PrefixedKey(key: string): string {
    DEFAULT_PREFIX + key
  }

  predicate Alive<V>(cell: Cell<V>, now: Instant) {
    cell.deadline.Some? ==> now < cell.deadline.value
  }

  /** `expiresAt && now > expiresAt`: a zero never expires. */
  predicate Expired<V>(e: Entry<V>, now: Instant) {
    e.expiresAt.Some? && e.expiresAt.value != 0 && now > e.expiresAt.value
  }

  /** What reading a stored key returns. */
  function Lookup<V>(cells: Cells<V>, stored: string, now: Instant): Option<V> {
    if stored in cells && Alive(cells[stored], now) && cells[stored].raw.Parsed?
       && !Expired(cells[stored].raw.entry, now)
    then Some(cells[stored].raw.entry.data)
    else None
  }

  function AfterGet<V>(cells: Cells<V>, stored: string, now: Instant, faults: Faults): Cells<V> {
    if !faults.read && !faults.write && stored in cells && Alive(cells[stored], now)
       && cells[stored].raw.Parsed? && Expired(cells[stored].raw.entry, now)
    then cells - {stored}
    else cells
  }

  function CeilSeconds(ms: int): int {
    (ms + 999) / 1000
  }

  function Stored<V>(value: V, ttlMs: int, now: Instant): Cell<V> {
    Cell(Parsed(Entry(value, Some(now + ttlMs))),
         if CeilSeconds(ttlMs) != 0 then Some(now + CeilSeconds(ttlMs) * 1000) else None)
  }

  /** From `from` on, every read of every key gives the same answer. */
  ghost predicate SameAnswers<V(!new)>(a: Cells<V>, b: Cells<V>, from: Instant) {
    forall key, t :: t >= from ==> Lookup(a, key, t) == Lookup(b, key, t)
  }

  // ---- patterns -----------------------------------------------------------------------------------

  predicate Magic(c: char) {
    c == '*' || c == '?' || c == '[' || c == '\\'
  }

  /** Redis glob matching: `*`, `?` and the backslash escape. */
  predicate Glob(pattern: string, s: string)
    decreases |pattern| + |s|
  {
    if pattern == "" then s == ""
    else if pattern[0] == '*' then Glob(pattern[1..], s) || (s != "" && Glob(pattern, s[1..]))
    else if s == "" then false
    else if pattern[0] == '?' then Glob(pattern[1..], s[1..])
    else if pattern[0] == '\\' && |pattern| > 1 then pattern[1] == s[0] && Glob(pattern[2..], s[1..])
    else pattern[0] == s[0] && Glob(pattern[1..], s[1..])
  }

  predicate Literal(s: string) {
    forall c :: c in s ==> !Magic(c)
  }

  lemma {:induction false} LiteralPrefix(literal: string, rest: string, s: string)
    requires Literal(literal)
    ensures Glob(literal + rest, s) <==> literal <= s && Glob(rest, s[|literal|..])
    decreases |literal|
  {
    if literal == "" {
      assert literal + rest == rest && s[0..] == s;
    } else {
      assert literal[0] in literal;
      assert (literal + rest)[1..] == literal[1..] + rest;
      if s != "" {
        assert forall c :: c in literal[1..] ==> c in literal;
        LiteralPrefix(literal[1..], rest, s[1..]);
        assert literal == [literal[0]] + literal[1..] && s == [s[0]] + s[1..];
        if literal <= s {
          assert s[|literal|..] == s[1..][|literal[1..]|..];
        }
      }
    }
  }

  /** A text of `n` question marks matches the keys of `n` characters. */
  lemma {:induction false} QuestionMarksCount(n: nat, s: string)
    ensures Glob(seq(n, _ => '?'), s) <==> |s| == n
    decreases n
  {
    if n > 0 && s != "" {
      assert seq(n, _ => '?')[1..] == seq(n - 1, _ => '?');
      QuestionMarksCount(n - 1, s[1..]);
    }
  }

  function Quoted(s: string): string {
    if s == "" then "" else ['\\', s[0]] + Quoted(s[1..])
  }

  /** A text with every character escaped matches itself alone. */
  lemma {:induction false} QuotedMatchesItself(s: string, key: string)
    ensures Glob(Quoted(s), key) <==> key == s
    decreases |s|
  {
    if s != "" && key != "" {
      assert Quoted(s)[2..] == Quoted(s[1..]);
      QuotedMatchesItself(s[1..], key[1..]);
      assert s == [s[0]] + s[1..] && key == [key[0]] + key[1..];
    }
  }

  lemma {:induction false} StarMatchesAll(s: string)
    ensures Glob("*", s)
    decreases |s|
  {
    if s == "" {
      assert Glob("*"[1..], s);
    } else {
      StarMatchesAll(s[1..]);
    }
  }

  /** A wildcard on a literal prefix removes exactly the keys under that prefix. */
  lemma PrefixPattern(literal: string, s: string)
    requires Literal(literal)
    ensures Glob(literal + "*", s) <==> literal <= s
  {
    LiteralPrefix(literal, "*", s);
    if literal <= s {
      StarMatchesAll(s[|literal|..]);
    }
  }

  function StripPrefix(pattern: string): string {
    if DEFAULT_PREFIX <= pattern then pattern[|DEFAULT_PREFIX|..] else pattern
  }

  /** The keys an invalidation payload removes. */
  predicate Invalidates(pattern: string, key: string) {
    if '*' in pattern then Glob(pattern, key) else key == PrefixedKey(StripPrefix(pattern))
  }

  /** The patterns the services emit. */
  datatype Emitted = OneUser(id: string) | AllUsers | AllRbac | AllTemplates

  function PatternOf(e: Emitted): string {
    match e
    case OneUser(id) => "cache:user:" + id
    case AllUsers => "cache:user:*"
    case AllRbac => "cache:rbac:*"
    case AllTemplates => "cache:email-template:*"
  }

  function SpaceOf(e: Emitted): string {
    match e
    case OneUser(_) => "cache:user:"
    case AllUsers => "cache:user:"
    case AllRbac => "cache:rbac:"
    case AllTemplates => "cache:email-template:"
  }

  /**
   Whatever a service emits, exact or wildcard, only keys of its own space are removed; a family
   wildcard removes all of them and a plain user id exactly its one key.
   */
  lemma InvalidationStaysInItsSpace(e: Emitted, key: string)
    ensures Invalidates(PatternOf(e), key) ==> SpaceOf(e) <= key
    ensures !e.OneUser? ==> (Invalidates(PatternOf(e), key) <==> SpaceOf(e) <= key)
    ensures e.OneUser? && '*' !in e.id ==> (Invalidates(PatternOf(e), key) <==> key == "cache:user:" + e.id)
  {
    if e.OneUser? {
      LiteralPrefix("cache:user:", e.id, key);
      assert PatternOf(e) == DEFAULT_PREFIX + ("user:" + e.id);
      assert StripPrefix(PatternOf(e)) == "user:" + e.id;
      assert '*' in PatternOf(e) <==> '*' in e.id;
    } else {
      assert PatternOf(e) == SpaceOf(e) + "*";
      WildcardSpace(SpaceOf(e), key);
    }
  }

  lemma WildcardSpace(space: string, key: string)
    requires Literal(space)
    ensures Invalidates(space + "*", key) <==> space <= key
  {
    assert '*' in (space + "*") by { assert (space + "*")[|space|] == '*'; }
    PrefixPattern(space, key);
  }

  /** No emitted pattern reaches the denylist of refresh tokens or the parameters. */
  lemma OtherKeySpacesAreSafe(e: Emitted, rest: string)
    ensures !Invalidates(PatternOf(e), "revoked:refresh:" + rest)
    ensures !Invalidates(PatternOf(e), "param:" + rest)
  {
    InvalidationStaysInItsSpace(e, "revoked:refresh:" + rest);
    InvalidationStaysInItsSpace(e, "param:" + rest);
    assert SpaceOf(e)[0] == 'c' && ("revoked:refresh:" + rest)[0] == 'r' && ("param:" + rest)[0] == 'p';
  }

  /** A stored value is served until its lifetime is over, whatever its neighbours do. */
  lemma StoredIsServed<V>(cells: Cells<V>, stored: string, value: V, ttlMs: int, now: Instant, later: Instant)
    requires ttlMs > 0 && 0 <= now <= later
    ensures Lookup(cells[stored := Stored(value, ttlMs, now)], stored, later)
            == if later <= now + ttlMs && later < now + CeilSeconds(ttlMs) * 1000 then Some(value) else None
    ensures ttlMs <= CeilSeconds(ttlMs) * 1000 < ttlMs + 1000
    ensures forall other :: other != stored ==>
              Lookup(cells[stored := Stored(value, ttlMs, now)], other, later) == Lookup(cells, other, later)
  {
  }

  // ---- the service ------------------------------------------------------------------------------------

  /** What the sweep removes: a live cell that is corrupt or whose entry is past its own expiry. */
  predicate Swept<V>(cell: Cell<V>, now: Instant) {
    Alive(cell, now) && (cell.raw.Corrupt? || Expired(cell.raw.entry, now))
  }

  /** No batch of the scan returned the key. */
  predicate Unseen(batches: seq<seq<string>>, key: string) {
    forall b :: 0 <= b < |batches| ==> key !in batches[b]
  }

  class CacheService<V(==,!new)> {
    var cells: Cells<V>
    var hits: nat
    var misses: nat

    constructor ()
      ensures cells == map[] && hits == misses == 0
    {
      cells, hits, misses := map[], 0, 0;
    }

    /** Reads never fail: an absent, expired, corrupt or unreadable entry is a miss. */
    method Get(key: string, now: Instant, faults: Faults) returns (r: Option<V>)
      modifies this
      ensures r == if faults.read then None else Lookup(old(cells), PrefixedKey(key), now)
      ensures cells == AfterGet(old(cells), PrefixedKey(key), now, faults)
      ensures SameAnswers(old(cells), cells, now)
      ensures hits + misses == old(hits + misses) + 1 && hits == old(hits) + if r.Some? then 1 else 0
    {
      var stored := PrefixedKey(key);
      if faults.read || stored !in cells || !Alive(cells[stored], now) || cells[stored].raw.Corrupt? {
        misses := misses + 1;
        return None;
      }
      var entry := cells[stored].raw.entry;
      if Expired(entry, now) {
        if !faults.write {
          cells := cells - {stored};
        }
        misses := misses + 1;
        return None;
      }
      hits := hits + 1;
      r := Some(entry.data);
    }

    method Set(key: string, value: V, ttlMs: Option<int>, now: Instant, faults: Faults)
      modifies this`cells
      ensures var ttl := if ttlMs.Some? then ttlMs.value else DEFAULT_TTL_MS;
              cells == if faults.write then old(cells) else old(cells)[PrefixedKey(key) := Stored(value, ttl, now)]
    {
      var effectiveTtlMs := if ttlMs.Some? then ttlMs.value else DEFAULT_TTL_MS;
      if faults.write {
        return;
      }
      cells := cells[PrefixedKey(key) := Stored(value, effectiveTtlMs, now)];
    }

    method Del(key: string, faults: Faults)
      modifies this`cells
      ensures cells == if faults.write then old(cells) else old(cells) - {PrefixedKey(key)}
    {
      if !faults.write {
        cells := cells - {PrefixedKey(key)};
      }
    }

    method HandleInvalidationPayload(pattern: string, faults: Faults) returns (deleted: nat)
      modifies this`cells
      ensures forall key :: key in cells <==> key in old(cells) && (faults.write || !Invalidates(pattern, key))
      ensures forall key :: key in cells ==> cells[key] == old(cells)[key]
      ensures deleted == if '*' in pattern then |old(cells).Keys - cells.Keys| else 1
    {
      if '*' in pattern {
        if faults.write {
          assert old(cells).Keys - cells.Keys == {};
          return 0;
        }
        var keys := set key | key in cells && Glob(pattern, key);
        cells := cells - keys;
        assert old(cells).Keys - cells.Keys == keys;
        return |keys|;
      }
      Del(StripPrefix(pattern), faults);
      deleted := 1;
    }

    /** Removes the batches a scan returns; a scan that returned every matching key leaves none behind. */
    method DelByPattern(pattern: string, batches: seq<seq<string>>) returns (deleted: nat)
      requires forall b, i :: 0 <= b < |batches| && 0 <= i < |batches[b]| ==> Glob(pattern, batches[b][i])
      modifies this`cells
      ensures forall key :: key in cells ==> key in old(cells) && cells[key] == old(cells)[key]
      ensures forall key :: key in old(cells) && !Glob(pattern, key) ==> key in cells
      ensures (forall key :: key in old(cells) && Glob(pattern, key) ==>
                               exists b :: 0 <= b < |batches| && key in batches[b])
              ==> forall key :: key in cells ==> !Glob(pattern, key)
    {
      deleted := 0;
      for b := 0 to |batches|
        invariant forall key :: key in cells ==> key in old(cells) && cells[key] == old(cells)[key]
        invariant forall key :: key in old(cells) && !Glob(pattern, key) ==> key in cells
        invariant forall key, c :: 0 <= c < b && key in batches[c] ==> key !in cells
      {
        cells := cells - set key | key in batches[b];
        deleted := deleted + |batches[b]|;
      }
    }

    /**
     The sweep removes only what no later read would return: corrupt entries and entries past
     their own expiry. It may see any keys in any batches, and a failing store may stop it anywhere.
     */
    method CleanupExpired(batches: seq<seq<string>>, now: Instant, failsAfter: Option<nat>)
      modifies this`cells
      ensures SameAnswers(old(cells), cells, now)
      ensures forall key :: key in cells ==> key in old(cells) && cells[key] == old(cells)[key]
      ensures forall key :: key in old(cells) && Unseen(batches, key) ==> key in cells
      ensures failsAfter.None? ==>
                forall key :: key in old(cells) && Swept(old(cells)[key], now) && !Unseen(batches, key) ==>
                                key !in cells
    {
      var visited := 0;
      for b := 0 to |batches|
        invariant SameAnswers(old(cells), cells, now)
        invariant forall key :: key in cells ==> key in old(cells) && cells[key] == old(cells)[key]
        invariant forall key :: key in old(cells) && Unseen(batches, key) ==> key in cells
        invariant forall key, c :: 0 <= c < b && key in batches[c] && key in cells ==> !Swept(cells[key], now)
      {
        for i := 0 to |batches[b]|
          invariant SameAnswers(old(cells), cells, now)
          invariant forall key :: key in cells ==> key in old(cells) && cells[key] == old(cells)[key]
          invariant forall key :: key in old(cells) && Unseen(batches, key) ==> key in cells
          invariant forall key, c :: 0 <= c < b && key in batches[c] && key in cells ==> !Swept(cells[key], now)
          invariant forall key :: key in batches[b][..i] && key in cells ==> !Swept(cells[key], now)
        {
          if failsAfter == Some(visited) {
            return;
          }
          visited := visited + 1;
          var key := batches[b][i];
          if key in cells && Alive(cells[key], now) {
            var raw := cells[key].raw;
            if raw.Corrupt? || Expired(raw.entry, now) {
              cells := cells - {key};
            }
          }
        }
      }
    }
  }
}
