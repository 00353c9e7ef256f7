/**
 * What the generated `From`/`Into`/`TryFrom`/`TryInto` impls compute. Both
 * derive functions of both generations emit the same shape: optional constant
 * items, one `match` arm per normal variant in declaration order, and one
 * fallback arm. A Rust `match` takes the first arm whose pattern matches.
 */
module Conversion {
  import opened Wrappers
  import opened EnumInput

  /** The discriminant side of an arm: the expression written inline, or the
      hoisted constant `ZHI_ENUM_COMPUTED_<index>`. */
  datatype Pattern = Inline(e: Expr) | Computed(index: nat)

  /** `<key> => Self::<variant>` in `from`, `Self::<variant> => <key>` in `into`. */
  datatype Arm = Arm(key: Pattern, variant: string)

  /** The last arm: `v => Self::<variant>(v)` / `Self::<variant>(v) => v` when
      the enum has an unknown variant; otherwise `panic!` in the converting
      impls and `Err(UnknownVariantError{})` in the fallible ones. */
  datatype Fallback = WrapUnknown(variant: string) | NoUnknown

  /** Everything a derive emits: the constants (the expression of
      `ZHI_ENUM_COMPUTED_n` is `consts[n]`), the arms of both directions and
      the fallback arm. */
  datatype Table = Table(consts: seq<Expr>, fromArms: seq<Arm>, intoArms: seq<Arm>, fallback: Fallback)

  /** A value of the enum: a normal variant, or the unknown variant carrying
      the raw integer. */
  datatype EnumValue = Named(variant: string) | Wrapped(variant: string, raw: int)

  /** The result of a conversion that may `panic!`. */
  datatype Outcome<+T> = Returned(value: T) | Panicked

  /** The empty error struct of the runtime crates. */
  datatype UnknownVariantError = UnknownVariantError

  /** The unknown variant's fallback arm, or the panicking / erring one. */
  function FallbackOf(unknown: Option<string>): Fallback
  {
    match unknown
    case None => NoUnknown
    case Some(u) => WrapUnknown(u)
  }

  /** Every constant an arm refers to is one of the emitted constants. */
  predicate InScope(consts: seq<Expr>, p: Pattern)
  {
    p.Computed? ==> p.index < |consts|
  }

  predicate ArmsInScope(consts: seq<Expr>, arms: seq<Arm>)
  {
    forall i :: 0 <= i < |arms| ==> InScope(consts, arms[i].key)
  }

  predicate WellFormed(t: Table)
  {
    ArmsInScope(t.consts, t.fromArms) && ArmsInScope(t.consts, t.intoArms)
  }

  /** Distinct variants in the arms: what rustc's own duplicate check gives. */
  predicate DistinctVariants(arms: seq<Arm>)
  {
    forall i, j :: 0 <= i < j < |arms| ==> arms[i].variant != arms[j].variant
  }

  function KeyValue(env: Env, consts: seq<Expr>, p: Pattern): int
    requires InScope(consts, p)
  {
    match p
    case Inline(e) => Eval(env, e)
    case Computed(n) => Eval(env, consts[n])
  }

  /** The arm a `match` on an integer takes: the first whose key equals it. */
  function FirstMatch(env: Env, consts: seq<Expr>, arms: seq<Arm>, raw: int): (r: Option<nat>)
    requires ArmsInScope(consts, arms)
    ensures r.Some? ==> r.value < |arms| && KeyValue(env, consts, arms[r.value].key) == raw
    ensures r.Some? ==> forall j :: 0 <= j < r.value ==> KeyValue(env, consts, arms[j].key) != raw
    ensures r.None? ==> forall j :: 0 <= j < |arms| ==> KeyValue(env, consts, arms[j].key) != raw
  {
    if |arms| == 0 then None
    else if KeyValue(env, consts, arms[0].key) == raw then Some(0)
    else match FirstMatch(env, consts, arms[1..], raw)
      case None => None
      case Some(k) => Some(k + 1)
  }

  /** The arm a `match` on an enum value takes: the first naming its variant. */
  function FindVariant(arms: seq<Arm>, name: string): (r: Option<nat>)
    ensures r.Some? ==> r.value < |arms| && arms[r.value].variant == name
    ensures r.Some? ==> forall j :: 0 <= j < r.value ==> arms[j].variant != name
    ensures r.None? ==> forall j :: 0 <= j < |arms| ==> arms[j].variant != name
  {
    if |arms| == 0 then None
    else if arms[0].variant == name then Some(0)
    else match FindVariant(arms[1..], name)
      case None => None
      case Some(k) => Some(k + 1)
  }

  /** `From::from`. */
  function From(env: Env, t: Table, raw: int): Outcome<EnumValue>
    requires WellFormed(t)
  {
    match FirstMatch(env, t.consts, t.fromArms, raw)
    case Some(i) => Returned(Named(t.fromArms[i].variant))
    case None =>
      match t.fallback
      case WrapUnknown(u) => Returned(Wrapped(u, raw))
      case NoUnknown => Panicked
  }

  /** `TryFrom::try_from`: the same arms, with `Err` where `from` panics. */
  function TryFrom(env: Env, t: Table, raw: int): (r: Result<EnumValue, UnknownVariantError>)
    requires WellFormed(t)
    ensures r.Ok? <==> From(env, t, raw).Returned?
    ensures r.Ok? ==> From(env, t, raw) == Returned(r.value)
  {
    match FirstMatch(env, t.consts, t.fromArms, raw)
    case Some(i) => Ok(Named(t.fromArms[i].variant))
    case None =>
      match t.fallback
      case WrapUnknown(u) => Ok(Wrapped(u, raw))
      case NoUnknown => Err(UnknownVariantError)
  }

  /** The values the enum type has: its normal variants, and the unknown
      variant with any integer when there is one. */
  predicate IsValue(t: Table, x: EnumValue)
  {
    match x
    case Named(n) => FindVariant(t.intoArms, n).Some?
    case Wrapped(u, _) => t.fallback == WrapUnknown(u)
  }

  /** `Into::into`. Its `_ => panic!` arm is never taken: every value of the
      enum is matched by an earlier arm. */
  function Into(env: Env, t: Table, x: EnumValue): int
    requires WellFormed(t) && IsValue(t, x)
  {
    match x
    case Named(n) => KeyValue(env, t.consts, t.intoArms[FindVariant(t.intoArms, n).value].key)
    case Wrapped(_, raw) => raw
  }

  /** `TryInto::try_into`: never fails on a value of the enum, and agrees with `into`. */
  function TryInto(env: Env, t: Table, x: EnumValue): (r: Result<int, UnknownVariantError>)
    requires WellFormed(t) && IsValue(t, x)
    ensures r == Ok(Into(env, t, x))
  {
    match x
    case Named(n) => Ok(KeyValue(env, t.consts, t.intoArms[FindVariant(t.intoArms, n).value].key))
    case Wrapped(u, raw) => if t.fallback == WrapUnknown(u) then Ok(raw) else Err(UnknownVariantError)
  }

  /** Round trip through a normal variant: `into` yields its key, and `from`
      gives the variant back exactly when no earlier arm has the same value. */
  lemma RoundTrip(env: Env, t: Table, i: nat)
    requires WellFormed(t) && t.fromArms == t.intoArms && DistinctVariants(t.intoArms)
    requires i < |t.intoArms|
    ensures var x := Named(t.intoArms[i].variant);
      && IsValue(t, x)
      && Into(env, t, x) == KeyValue(env, t.consts, t.intoArms[i].key)
      && (From(env, t, Into(env, t, x)) == Returned(x) <==>
          forall j :: 0 <= j < i ==> KeyValue(env, t.consts, t.intoArms[j].key) != KeyValue(env, t.consts, t.intoArms[i].key))
  {
    var arms := t.intoArms;
    var x := Named(arms[i].variant);
    var f := FindVariant(arms, arms[i].variant);
    assert f == Some(i);
    var raw := KeyValue(env, t.consts, arms[i].key);
    var m := FirstMatch(env, t.consts, arms, raw);
    assert m.Some? && m.value <= i;
    if m.value < i {
      assert arms[m.value].variant != arms[i].variant;
    }
  }

  /** Whatever `from` returns converts back to the integer it came from,
      through a normal variant or through the unknown one. */
  lemma IntoAfterFrom(env: Env, t: Table, raw: int)
    requires WellFormed(t) && t.fromArms == t.intoArms && DistinctVariants(t.intoArms)
    requires From(env, t, raw).Returned?
    ensures IsValue(t, From(env, t, raw).value) && Into(env, t, From(env, t, raw).value) == raw
  {
    var arms := t.intoArms;
    match FirstMatch(env, t.consts, arms, raw)
    case None =>
    case Some(k) =>
      var f := FindVariant(arms, arms[k].variant);
      assert f == Some(k);
  }

  /** An integer no arm matches: wrapped losslessly when there is an unknown
      variant; otherwise `from` panics and `try_from` returns the error. */
  lemma Unmatched(env: Env, t: Table, raw: int)
    requires WellFormed(t)
    requires forall j :: 0 <= j < |t.fromArms| ==> KeyValue(env, t.consts, t.fromArms[j].key) != raw
    ensures t.fallback.WrapUnknown? ==>
      var x := Wrapped(t.fallback.variant, raw);
      From(env, t, raw) == Returned(x) && TryFrom(env, t, raw) == Ok(x) && IsValue(t, x) && Into(env, t, x) == raw
    ensures t.fallback.NoUnknown? ==>
      From(env, t, raw) == Panicked && TryFrom(env, t, raw) == Err(UnknownVariantError)
  {
    var m := FirstMatch(env, t.consts, t.fromArms, raw);
    assert m.None?;
  }

  /** An integer some arm matches: `from` takes the first such arm, whatever
      the fallback is. */
  lemma Matched(env: Env, t: Table, raw: int, k: nat)
    requires WellFormed(t) && k < |t.fromArms|
    requires KeyValue(env, t.consts, t.fromArms[k].key) == raw
    requires forall j :: 0 <= j < k ==> KeyValue(env, t.consts, t.fromArms[j].key) != raw
    ensures From(env, t, raw) == Returned(Named(t.fromArms[k].variant))
    ensures TryFrom(env, t, raw) == Ok(Named(t.fromArms[k].variant))
  {
    var m := FirstMatch(env, t.consts, t.fromArms, raw);
    assert m == Some(k);
  }
}
