/**
 Runtime parameters in two cache levels: Redis, shared, and one in-process map per instance.
 This module follows one key through any number of instances.
 */
module Parameters {
  import opened Prelude

  datatype Number = Finite(value: real) | Infinite(positive: bool)
  datatype Value = Str(text: string) | Num(number: Number) | Bool(flag: bool)
  datatype ParameterType = StringType | NumberType | BooleanType

  /**
   `String(n)` and `Number(s)`; `None` stands for NaN. The numbers the language has are those some
   text is read as: a parser may round, and may have only finitely many results.
   */
  datatype NumberText = NumberText(show: Number -> string, parse: string -> Option<Number>) {
    /** What the language guarantees: a number it has reads back from its own text, which is not blank. */
    ghost predicate Lawful() {
      forall s :: parse(s).Some? ==> ReadsBack(parse(s).value)
    }

    predicate ReadsBack(n: Number) {
      parse(show(n)) == Some(n) && Trim(show(n)) != ""
    }

    ghost predicate Has(n: Number) {
      exists s :: parse(s) == Some(n)
    }
  }

  /** A value that can be stored: a number is one the language has. Other types need no law about numbers. */
  ghost predicate Storable(numbers: NumberText, v: Value) {
    v.Num? ==> numbers.Lawful() && numbers.Has(v.number)
  }

  /** A parser that rounds every text it knows to one of two numbers: the law asks no more of it than of any other. */
  const COARSE: NumberText :=
    NumberText((n: Number) => if n.Infinite? then "Infinity" else "0",
               (s: string) => if s == "Infinity" then Some(Infinite(true))
                              else if s in ["0", "0.1"] then Some(Finite(0.0)) else None)

  lemma CoarseNumbersAreLawful()
    ensures COARSE.Lawful()
  {
    assert forall s :: COARSE.parse(s).Some? ==> COARSE.parse(s).value in [Infinite(true), Finite(0.0)];
  }

  datatype Definition = Definition(key: string, kind: ParameterType, default: Value, ttl: nat, validate: Value -> bool)

  predicate HasType(kind: ParameterType, v: Value) {
    match kind
    case StringType => v.Str?
    case NumberType => v.Num?
    case BooleanType => v.Bool?
  }

  predicate IsInfinite(v: Value) {
    v.Num? && v.number.Infinite?
  }

  // ---- text and values --------------------------------------------------------------------------

  function Trim(s: string): string
    decreases |s|
  {
    if s != "" && s[0] in " \t\r\n" then Trim(s[1..])
    else if s != "" && s[|s| - 1] in " \t\r\n" then Trim(s[..|s| - 1])
    else s
  }

  function LowerChar(c: char): char {
    if 'A' <= c <= 'Z' then (c as int + 32) as char else c
  }

  function Lower(s: string): string {
    seq(|s|, i requires 0 <= i < |s| => LowerChar(s[i]))
  }

  /** `String(value)`. */
  function Show(numbers: NumberText, v: Value): string {
    match v
    case Str(text) => text
    case Num(n) => numbers.show(n)
    case Bool(b) => if b then "true" else "false"
  }

  datatype ParameterError = InvalidOverride | NotInRegistry | ValueInvalid | ValidationFailed | Overridden | NotFound

  /** `coerceValue`: the text of a stored value, read as the registered type. */
  function CoerceValue(numbers: NumberText, kind: ParameterType, text: string): Result<Value, ParameterError> {
    match kind
    case BooleanType =>
      var normalized := Lower(Trim(text));
      if normalized in ["true", "1", "si"] then Ok(Bool(true))
      else if normalized in ["false", "0", "no"] then Ok(Bool(false))
      else Err(InvalidOverride)
    case NumberType =>
      var parsed := numbers.parse(text);
      if Trim(text) == "" || parsed.None? || parsed.value.Infinite? then Err(InvalidOverride) else Ok(Num(parsed.value))
    case StringType => Ok(Str(text))
  }

  /** `validateAndCoerce`: what an admin typed, read as the registered type. It lets infinities through. */
  function ValidateAndCoerce(numbers: NumberText, def: Definition, raw: string): Result<Value, ParameterError> {
    match def.kind
    case NumberType =>
      var n := numbers.parse(raw);
      if n.None? then Err(ValueInvalid)
      else if def.key == "THROTTLE_LIMIT" && NotPositive(n.value) then Err(ValueInvalid)
      else Ok(Num(n.value))
    case BooleanType =>
      var lower := Lower(raw);
      if lower !in ["true", "false", "1", "0"] then Err(ValueInvalid) else Ok(Bool(lower in ["true", "1"]))
    case StringType => Ok(Str(raw))
  }

  predicate NotPositive(n: Number) {
    match n
    case Finite(x) => x <= 0.0
    case Infinite(positive) => !positive
  }

  lemma LowerOfFlags()
    ensures Lower(Trim("true")) == "true" && Lower(Trim("false")) == "false"
  {
    assert Lower("true") == "true" && Lower("false") == "false";
  }

  /** Storing a value as text and reading it back as its type returns it, unless it is an infinite number. */
  lemma CoerceUndoesString(numbers: NumberText, kind: ParameterType, v: Value)
    requires HasType(kind, v) && Storable(numbers, v)
    ensures CoerceValue(numbers, kind, Show(numbers, v))
            == if IsInfinite(v) then Err(InvalidOverride) else Ok(v)
  {
    LowerOfFlags();
    if v.Num? {
      var s :| numbers.parse(s) == Some(v.number);
      assert numbers.ReadsBack(numbers.parse(s).value);
    }
  }

  /** Typing a value's own text means that value, for every type and every value an update may store. */
  lemma ValidateUndoesString(numbers: NumberText, def: Definition, v: Value)
    requires HasType(def.kind, v) && Storable(numbers, v)
    ensures ValidateAndCoerce(numbers, def, Show(numbers, v))
            == if v.Num? && def.key == "THROTTLE_LIMIT" && NotPositive(v.number) then Err(ValueInvalid) else Ok(v)
  {
    LowerOfFlags();
    if v.Num? {
      var s :| numbers.parse(s) == Some(v.number);
      assert numbers.ReadsBack(numbers.parse(s).value);
    }
  }

  /** The flag words an update understands, in any case; `si` and `no` are not among them. */
  lemma TypedFlags(numbers: NumberText, def: Definition)
    requires def.kind == BooleanType
    ensures forall w :: w in ["true", "TRUE", "True", "1"] ==> ValidateAndCoerce(numbers, def, w) == Ok(Bool(true))
    ensures forall w :: w in ["false", "FALSE", "False", "0"] ==> ValidateAndCoerce(numbers, def, w) == Ok(Bool(false))
    ensures forall w :: w in ["si", "no", "yes", " true", ""] ==>
                          ValidateAndCoerce(numbers, def, w) == Err(ValueInvalid)
  {
    assert Lower("true") == Lower("TRUE") == Lower("True") == "true" && Lower("1") == "1";
    assert Lower("false") == Lower("FALSE") == Lower("False") == "false" && Lower("0") == "0";
    assert Lower("si") == "si" && Lower("no") == "no" && Lower("yes") == "yes" && Lower(" true") == " true";
  }

  lemma TrueWords()
    ensures Trim("true") == "true" && Trim("TRUE") == "TRUE" && Trim("1") == "1" && Trim("si") == "si"
    ensures Trim(" Si ") == "Si"
    ensures Lower("true") == Lower("TRUE") == "true" && Lower("1") == "1" && Lower("si") == Lower("Si") == "si"
  {
    assert Trim(" Si ") == Trim("Si ") == Trim("Si");
  }

  lemma FalseWords()
    ensures Trim("false") == "false" && Trim("FALSE") == "FALSE" && Trim("0") == "0" && Trim("no") == "no"
    ensures Trim(" No ") == "No"
    ensures Lower("false") == Lower("FALSE") == "false" && Lower("0") == "0" && Lower("no") == Lower("No") == "no"
  {
    assert Trim(" No ") == Trim("No ") == Trim("No");
  }

  lemma OtherWords()
    ensures Trim("yes") == "yes" && Trim("2") == "2" && Trim("") == ""
    ensures Lower("yes") == "yes" && Lower("2") == "2" && Lower("") == ""
  {
  }

  /** The flag words a stored text or an environment variable may use, in any case and with space around. */
  lemma StoredFlags(numbers: NumberText, w: string)
    ensures w in ["true", "TRUE", "1", "si", " Si "] ==> CoerceValue(numbers, BooleanType, w) == Ok(Bool(true))
    ensures w in ["false", "FALSE", "0", "no", " No "] ==> CoerceValue(numbers, BooleanType, w) == Ok(Bool(false))
    ensures w in ["yes", "2", ""] ==> CoerceValue(numbers, BooleanType, w) == Err(InvalidOverride)
  {
    hide Trim, Lower;
    if w in ["true", "TRUE", "1", "si", " Si "] {
      TrueWords();
    } else if w in ["false", "FALSE", "0", "no", " No "] {
      FalseWords();
    } else if w in ["yes", "2", ""] {
      OtherWords();
    }
  }

  // ---- one key, two levels --------------------------------------------------------------------------

  /** A stored text and the instant Redis drops it; a lifetime of zero seconds sets none. */
  datatype Text = Text(text: string, deadline: Option<Instant>)
  datatype L1Entry = L1Entry(value: Value, expiresAt: Instant)
  type Instance = nat

  /** Redis' text for the key, and each instance's own copy. */
  datatype World = World(redis: Option<Text>, l1: map<Instance, L1Entry>)

  function LifeMs(def: Definition): int {
    def.ttl * 1000
  }

  function Written(numbers: NumberText, def: Definition, v: Value, now: Instant): Text {
    Text(Show(numbers, v), if def.ttl == 0 then None else Some(now + LifeMs(def)))
  }

  predicate L1Hit(w: World, i: Instance, now: Instant) {
    i in w.l1 && now < w.l1[i].expiresAt
  }

  predicate RedisHit(w: World, now: Instant) {
    w.redis.Some? && (w.redis.value.deadline.None? || now < w.redis.value.deadline.value)
  }

  /** `get` of instance `i`, with Redis answering and no environment override. */
  function Get(numbers: NumberText, def: Definition, w: World, i: Instance, now: Instant)
    : (Result<Value, ParameterError>, World)
  {
    if L1Hit(w, i, now) then (Ok(w.l1[i].value), w)
    else if RedisHit(w, now) then
      var read := CoerceValue(numbers, def.kind, w.redis.value.text);
      if read.Err? then (read, World(w.redis, w.l1 - {i}))
      else (read, World(w.redis, w.l1[i := L1Entry(read.value, now + LifeMs(def))]))
    else
      (Ok(def.default),
       World(Some(Written(numbers, def, def.default, now)), w.l1[i := L1Entry(def.default, now + LifeMs(def))]))
  }

  function Set(numbers: NumberText, def: Definition, w: World, i: Instance, v: Value, now: Instant): World {
    World(Some(Written(numbers, def, v, now)), w.l1 - {i})
  }

  function Delete(w: World, i: Instance): World {
    World(None, w.l1 - {i})
  }

  datatype Op =
    | GetAt(instance: Instance, at: Instant)
    | SetAt(instance: Instance, value: Value, at: Instant)
    | DeleteAt(instance: Instance, at: Instant)

  datatype Run = Run(numbers: NumberText, def: Definition, ops: seq<Op>) {

    function At(k: nat): World
      requires k <= |ops|
    {
      if k == 0 then World(None, map[])
      else
        match ops[k - 1]
        case GetAt(i, at) => Get(numbers, def, At(k - 1), i, at).1
        case SetAt(i, v, at) => Set(numbers, def, At(k - 1), i, v, at)
        case DeleteAt(i, _) => Delete(At(k - 1), i)
    }

    function Served(k: nat): Result<Value, ParameterError>
      requires k < |ops| && ops[k].GetAt?
    {
      Get(numbers, def, At(k), ops[k].instance, ops[k].at).0
    }

    /** Every stored value has the registered type, and so has the default, which is finite. */
    ghost predicate Typed() {
      && def.ttl > 0
      && HasType(def.kind, def.default) && Storable(numbers, def.default) && !IsInfinite(def.default)
      && forall k :: 0 <= k < |ops| && ops[k].SetAt? ==>
                       HasType(def.kind, ops[k].value) && Storable(numbers, ops[k].value)
    }

    predicate Timely() {
      forall j, k :: 0 <= j < k < |ops| ==> ops[j].at <= ops[k].at
    }
  }

  /** The operation replaces or removes the stored value. */
  predicate Supersedes(op: Op) {
    op.SetAt? || op.DeleteAt?
  }

  // ---- after a set ------------------------------------------------------------------------------------

  predicate OnlyGets(r: Run, i: nat, j: nat)
    requires j <= |r.ops|
  {
    forall k :: i <= k < j ==> r.ops[k].GetAt?
  }

  lemma {:induction false} SetIsKept(r: Run, i: nat, k: nat)
    requires r.Typed() && r.Timely() && i < k <= |r.ops| && r.ops[i].SetAt? && OnlyGets(r, i + 1, k)
    requires k - 1 > i ==> r.ops[k - 1].at < r.ops[i].at + LifeMs(r.def)
    ensures var w, inst := r.At(k), r.ops[i].instance;
            && w.redis == Some(Written(r.numbers, r.def, r.ops[i].value, r.ops[i].at))
            && (inst in w.l1 ==> w.l1[inst].value == r.ops[i].value && !IsInfinite(r.ops[i].value))
    decreases k
  {
    if k > i + 1 {
      SetIsKept(r, i, k - 1);
      CoerceUndoesString(r.numbers, r.def.kind, r.ops[i].value);
    }
  }

  /**
   The instance that set a value reads it back until the value's lifetime is over, however often
   anyone reads, exactly when the value is finite; an infinite number cannot be read at all.
   */
  lemma SetterReadsItsValue(r: Run, i: nat, j: nat)
    requires r.Typed() && r.Timely() && i < j < |r.ops| && r.ops[i].SetAt? && OnlyGets(r, i + 1, j)
    requires r.ops[j] == GetAt(r.ops[i].instance, r.ops[j].at) && r.ops[j].at < r.ops[i].at + LifeMs(r.def)
    ensures r.Served(j) == if IsInfinite(r.ops[i].value) then Err(InvalidOverride) else Ok(r.ops[i].value)
  {
    SetIsKept(r, i, j);
    CoerceUndoesString(r.numbers, r.def.kind, r.ops[i].value);
  }

  /**
   Every other instance reads the value too, from the moment its own copy of an older one has gone and
   as long as the value lives.
   */
  lemma OthersReadTheValue(r: Run, i: nat, j: nat)
    requires r.Typed() && r.Timely() && i < j < |r.ops| && r.ops[i].SetAt? && OnlyGets(r, i + 1, j)
    requires r.ops[j].GetAt? && r.ops[j].at < r.ops[i].at + LifeMs(r.def)
    requires !L1Hit(r.At(j), r.ops[j].instance, r.ops[j].at)
    ensures r.Served(j) == if IsInfinite(r.ops[i].value) then Err(InvalidOverride) else Ok(r.ops[i].value)
  {
    SetIsKept(r, i, j);
    CoerceUndoesString(r.numbers, r.def.kind, r.ops[i].value);
  }

  /** After a delete, an instance without a copy reads the default. */
  lemma DeletedMeansDefault(r: Run, i: nat, inst: Instance, now: Instant)
    requires i < |r.ops| && r.ops[i].DeleteAt? && !L1Hit(r.At(i + 1), inst, now)
    ensures Get(r.numbers, r.def, r.At(i + 1), inst, now).0 == Ok(r.def.default)
    ensures r.ops[i].instance == inst ==> inst !in r.At(i + 1).l1
  {
  }

  // ---- how long an old value can be served ----------------------------------------------------------------

  /** Before operation `k`, `v` was set by number `i`, and a copy expiring at `until` is within its bounds. */
  predicate Accounted(r: Run, k: nat, v: Value, i: nat, until: Instant)
    requires k <= |r.ops|
  {
    && i < k && r.ops[i].SetAt? && r.ops[i].value == v
    && until <= r.ops[i].at + 2 * LifeMs(r.def)
    && forall m :: i < m < k && Supersedes(r.ops[m]) ==> until <= r.ops[m].at + LifeMs(r.def)
  }

  /** Redis holds the default, or the value set last. */
  ghost predicate RedisAccounted(r: Run, k: nat)
    requires k <= |r.ops|
  {
    var t := r.At(k).redis;
    t.Some? ==>
      || t.value.text == Show(r.numbers, r.def.default)
      || exists i :: 0 <= i < k && r.ops[i].SetAt?
                     && t.value == Written(r.numbers, r.def, r.ops[i].value, r.ops[i].at)
                     && forall m :: i < m < k ==> !Supersedes(r.ops[m])
  }

  lemma {:induction false} RedisAlwaysAccounted(r: Run, k: nat)
    requires k <= |r.ops|
    ensures RedisAccounted(r, k)
  {
    if k > 0 {
      hide CoerceValue, Show;
      RedisAlwaysAccounted(r, k - 1);
      var op := r.ops[k - 1];
      if op.GetAt? && r.At(k).redis == r.At(k - 1).redis && r.At(k).redis.Some?
         && r.At(k).redis.value.text != Show(r.numbers, r.def.default) {
        var i :| 0 <= i < k - 1 && r.ops[i].SetAt?
                 && r.At(k - 1).redis.value == Written(r.numbers, r.def, r.ops[i].value, r.ops[i].at)
                 && forall m :: i < m < k - 1 ==> !Supersedes(r.ops[m]);
        assert forall m :: i < m < k ==> !Supersedes(r.ops[m]);
      }
    }
  }

  /** A value read from Redis is the default or the one set last, still within its lifetime. */
  lemma RedisServes(r: Run, k: nat, now: Instant) returns (i: nat)
    requires r.Typed() && k <= |r.ops| && RedisHit(r.At(k), now)
    requires var read := CoerceValue(r.numbers, r.def.kind, r.At(k).redis.value.text);
             read.Ok? && read.value != r.def.default
    ensures i < k && r.ops[i].SetAt? && now < r.ops[i].at + LifeMs(r.def)
    ensures CoerceValue(r.numbers, r.def.kind, r.At(k).redis.value.text) == Ok(r.ops[i].value)
    ensures forall m :: i < m < k ==> !Supersedes(r.ops[m])
  {
    RedisAlwaysAccounted(r, k);
    CoerceUndoesString(r.numbers, r.def.kind, r.def.default);
    i :| 0 <= i < k && r.ops[i].SetAt?
         && r.At(k).redis.value == Written(r.numbers, r.def, r.ops[i].value, r.ops[i].at)
         && forall m :: i < m < k ==> !Supersedes(r.ops[m]);
    var v := r.ops[i].value;
    CoerceUndoesString(r.numbers, r.def.kind, v);
  }

  lemma {:induction false} CopiesAreAccounted(r: Run, k: nat, inst: Instance) returns (i: nat)
    requires r.Typed() && r.Timely() && k <= |r.ops|
    requires inst in r.At(k).l1 && r.At(k).l1[inst].value != r.def.default
    ensures Accounted(r, k, r.At(k).l1[inst].value, i, r.At(k).l1[inst].expiresAt)
  {
    var op, before, after := r.ops[k - 1], r.At(k - 1), r.At(k);
    if inst in before.l1 && before.l1[inst] == after.l1[inst]
       && !(op.GetAt? && op.instance == inst && !L1Hit(before, inst, op.at)) {
      i := CopiesAreAccounted(r, k - 1, inst);
      if Supersedes(op) {
        CopyOutlivesNoLoad(r, k - 1, inst);
      }
    } else {
      i := RedisServes(r, k - 1, op.at);
    }
  }

  /** A copy lives at most one lifetime past the latest operation. */
  lemma {:induction false} CopyOutlivesNoLoad(r: Run, k: nat, inst: Instance)
    requires r.Timely() && k < |r.ops| && inst in r.At(k).l1
    ensures r.At(k).l1[inst].expiresAt <= r.ops[k].at + LifeMs(r.def)
    decreases k
  {
    if k > 0 && inst in r.At(k - 1).l1 {
      CopyOutlivesNoLoad(r, k - 1, inst);
    }
  }

  /**
   A served value is the default, or was set by some operation less than two lifetimes ago, and
   less than one lifetime ago if anything has replaced or removed it since.
   */
  lemma ServedValuesAreRecent(r: Run, j: nat)
    requires r.Typed() && r.Timely() && j < |r.ops| && r.ops[j].GetAt? && r.Served(j).Ok?
    requires r.Served(j).value != r.def.default
    ensures exists i :: 0 <= i < j && r.ops[i].SetAt? && r.ops[i].value == r.Served(j).value
                        && r.ops[j].at < r.ops[i].at + 2 * LifeMs(r.def)
                        && forall m :: i < m < j && Supersedes(r.ops[m]) ==> r.ops[j].at < r.ops[m].at + LifeMs(r.def)
  {
    var w, inst, now := r.At(j), r.ops[j].instance, r.ops[j].at;
    if L1Hit(w, inst, now) {
      var i := CopiesAreAccounted(r, j, inst);
      assert r.ops[i].SetAt? && r.ops[i].value == r.Served(j).value;
    } else {
      var i := RedisServes(r, j, now);
      assert r.ops[i].SetAt? && r.ops[i].value == r.Served(j).value;
    }
  }

  /** Whatever is served has the registered type. */
  lemma ServedValuesAreTyped(r: Run, j: nat)
    requires r.Typed() && r.Timely() && j < |r.ops| && r.ops[j].GetAt? && r.Served(j).Ok?
    ensures HasType(r.def.kind, r.Served(j).value)
  {
    if r.Served(j).value != r.def.default {
      ServedValuesAreRecent(r, j);
    }
  }
}
