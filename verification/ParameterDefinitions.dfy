/** The parameters the program registers, with the validators that decide which values they admit. */
module ParameterDefinitions {
  import opened Parameters

  /** `Number.isInteger(v) && v >= 1`: false for every text, flag and infinite number. */
  predicate IsIntMin1(v: Value) {
    v.Num? && v.number.Finite? && v.number.value == v.number.value.Floor as real && v.number.value >= 1.0
  }

  predicate IsProvider(v: Value) {
    v in [Str("smtp"), Str("resend")]
  }

  predicate Anything(v: Value) {
    true
  }

  function Count(key: string, default: nat): Definition {
    Definition(key, NumberType, Num(Finite(default as real)), 300, IsIntMin1)
  }

  function Words(key: string, default: string): Definition {
    Definition(key, StringType, Str(default), 300, Anything)
  }

  const REGISTRY: map<string, Definition> := map[
    "EMAIL_PROVIDER" := Words("EMAIL_PROVIDER", "smtp").(validate := IsProvider),
    "EMAIL_HOST" := Words("EMAIL_HOST", "smtp"),
    "EMAIL_PORT" := Count("EMAIL_PORT", 587),
    "EMAIL_SECURE" := Definition("EMAIL_SECURE", BooleanType, Bool(false), 300, Anything),
    "EMAIL_FROM" := Words("EMAIL_FROM", "noreply@countergank.com"),
    "RESEND_FROM_EMAIL" := Words("RESEND_FROM_EMAIL", "noreply@countergank.com"),
    "THROTTLE_LIMIT" := Count("THROTTLE_LIMIT", 10),
    "THROTTLE_TTL" := Count("THROTTLE_TTL", 60),
    "LOGIN_THROTTLE_LIMIT" := Count("LOGIN_THROTTLE_LIMIT", 5),
    "LOGIN_THROTTLE_TTL" := Count("LOGIN_THROTTLE_TTL", 60),
    "REGISTER_THROTTLE_LIMIT" := Count("REGISTER_THROTTLE_LIMIT", 3),
    "REGISTER_THROTTLE_TTL" := Count("REGISTER_THROTTLE_TTL", 60),
    "FORGOT_PASSWORD_THROTTLE_LIMIT" := Count("FORGOT_PASSWORD_THROTTLE_LIMIT", 3),
    "FORGOT_PASSWORD_THROTTLE_TTL" := Count("FORGOT_PASSWORD_THROTTLE_TTL", 300)]

  /** Every default has its type, passes its own validator and is finite; every lifetime is five minutes. */
  lemma DefaultsAreValid(key: string)
    requires key in REGISTRY
    ensures var d := REGISTRY[key];
            && d.key == key && d.ttl == 300
            && HasType(d.kind, d.default) && d.validate(d.default) && !IsInfinite(d.default)
  {
  }

  /** No registered validator admits an infinite number for a number parameter. */
  lemma AdmittedNumbersAreFinite(key: string, v: Value)
    requires key in REGISTRY && HasType(REGISTRY[key].kind, v) && REGISTRY[key].validate(v)
    ensures !IsInfinite(v)
  {
  }
}
