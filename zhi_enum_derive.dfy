/**
 * The newer generation's derive macros `EnumConvert` and `EnumTryConvert`:
 * building the enum definition (marker attribute `#[zhi_enum(unknown)]`) and
 * synthesising the arms, where every discriminant with a base is hoisted
 * into a constant `ZHI_ENUM_COMPUTED_n` that both directions use.
 */
module ZhiEnumDerive {
  import opened Wrappers
  import opened EnumInput
  import opened Definition
  import opened Conversion
  import opened ZhiDiscriminant

  const Marker: string := "zhi_enum"

  /** `EnumDefinition::new`: the input must be an enum, carry a `repr`, and
      the repr must be supported, before any variant is looked at. */
  function Build(input: DeriveInput): Result<EnumDefinition<Discriminant>, BuildError>
  {
    if !input.data.EnumData? then Err(NotAnEnum)
    else
      match ParseRepr(input.attrs)
      case Err(e) => Err(e)
      case Ok(repr) =>
        match ClassifyRepr(repr)
        case Err(e) => Err(e)
        case Ok(c) =>
          match Walk(Marker, ZhiSequencer(c), Acc(Fresh, None, []), input.data.variants)
          case Err(e) => Err(e)
          case Ok(a) => Ok(EnumDefinition(input.name, repr, a.unknown, a.normals))
  }

  /** `EnumDefinition::new` as the macro runs it: one loop over the variants
      that drives a `Generator` and records normal names in a set. */
  method NewEnumDefinition(input: DeriveInput) returns (r: Result<EnumDefinition<Discriminant>, BuildError>)
    ensures r == Build(input)
  {
    if !input.data.EnumData? {
      return Err(NotAnEnum);
    }
    var variants := input.data.variants;
    var repr := ParseRepr(input.attrs);
    if repr.Err? {
      return Err(repr.error);
    }
    var created := Generator.New(repr.value);
    if created.Err? {
      return Err(created.error);
    }
    var gen := created.value;
    ghost var sq := ZhiSequencer(gen.computable);
    var unknown: Option<string> := None;
    var normals: seq<Normal<Discriminant>> := [];
    var seen: set<string> := {};
    var i := 0;
    while i < |variants|
      invariant 0 <= i <= |variants|
      invariant forall x :: x in seen <==> x in Names(normals)
      invariant Walk(Marker, sq, Acc(Fresh, None, []), variants)
        == Walk(Marker, sq, Acc(gen.State(), unknown, normals), variants[i..])
    {
      var v := variants[i];
      assert variants[i..][0] == v && variants[i..][1..] == variants[i + 1..];
      var kind := KindOf(v, Marker);
      if kind.Err? {
        return Err(kind.error);
      }
      if kind.value == UnknownKind {
        if unknown.Some? {
          return Err(MultipleUnknown(v.name));
        }
        unknown := Some(v.name);
      } else {
        var d;
        if v.discriminant.Some? {
          d := gen.Reset(v.discriminant.value);
        } else {
          d := gen.Next();
        }
        if v.name in seen {
          return Err(DuplicateVariant(v.name));
        }
        seen := seen + {v.name};
        normals := normals + [Normal(v.name, d)];
        assert Names(normals) == Names(normals[..|normals| - 1]) + [v.name];
      }
      i := i + 1;
    }
    return Ok(EnumDefinition(input.name, repr.value, unknown, normals));
  }

  /** Construction succeeds exactly when the item is an enum with a supported
      `repr`, every marker attribute reads `unknown`, at most one variant is
      unknown, and no two normal variants share a name. */
  lemma BuildSucceedsIff(input: DeriveInput)
    ensures Build(input).Ok? <==>
      && input.data.EnumData?
      && ParseRepr(input.attrs).Ok?
      && ClassifyRepr(ParseRepr(input.attrs).value).Ok?
      && AllClassify(input.data.variants, Marker)
      && UnknownCount(input.data.variants, Marker) <= 1
      && Distinct(NormalNames(input.data.variants, Marker))
  {
    if input.data.EnumData? && ParseRepr(input.attrs).Ok? && ClassifyRepr(ParseRepr(input.attrs).value).Ok? {
      var c := ClassifyRepr(ParseRepr(input.attrs).value).value;
      assert Names<Discriminant>([]) + NormalNames(input.data.variants, Marker) == NormalNames(input.data.variants, Marker);
      WalkSucceedsIff(Marker, ZhiSequencer(c), Acc(Fresh, None, []), input.data.variants);
    }
  }

  /** A built definition: the normal variants in declaration order with
      distinct names, numbered by the generator over the normal variants
      alone, and the unknown variant if one was marked. */
  lemma BuildResult(input: DeriveInput, d: EnumDefinition<Discriminant>)
    requires Build(input) == Ok(d)
    ensures input.data.EnumData? && ParseRepr(input.attrs) == Ok(d.repr)
    ensures Names(d.normals) == NormalNames(input.data.variants, Marker)
    ensures Distinct(Names(d.normals))
    ensures d.unknown == FirstUnknown(input.data.variants, Marker)
    ensures Discriminants(d.normals)
      == Resolve(ZhiSequencer(ClassifyRepr(d.repr).value), Fresh, NormalExplicits(input.data.variants, Marker)).0
  {
    var vs := input.data.variants;
    var c := ClassifyRepr(d.repr).value;
    var acc0 := Acc(Fresh, None, []);
    WalkResult(Marker, ZhiSequencer(c), acc0, vs);
    WalkSucceedsIff(Marker, ZhiSequencer(c), acc0, vs);
    assert Names(acc0.normals) + NormalNames(vs, Marker) == NormalNames(vs, Marker);
    assert Discriminants(acc0.normals) + Resolve(ZhiSequencer(c), Fresh, NormalExplicits(vs, Marker)).0
      == Resolve(ZhiSequencer(c), Fresh, NormalExplicits(vs, Marker)).0;
  }

  /** Number of discriminants with a base among `ns`. */
  function BasedCount(ns: seq<Normal<Discriminant>>): nat
  {
    if |ns| == 0 then 0
    else BasedCount(ns[..|ns| - 1]) + (if ns[|ns| - 1].discriminant.HaveBase() then 1 else 0)
  }

  /** The constants and arms after the variants `normals`, as the arm loop of
      `derive_enum_convert` / `derive_enum_try_convert` builds them. */
  function Hoist(normals: seq<Normal<Discriminant>>): (seq<Expr>, seq<Arm>)
    decreases |normals|
  {
    if |normals| == 0 then ([], [])
    else
      var (cs, arms) := Hoist(normals[..|normals| - 1]);
      var last := normals[|normals| - 1];
      var e := last.discriminant.ToExpr();
      if last.discriminant.HaveBase() then (cs + [e], arms + [Arm(Computed(|cs|), last.name)])
      else (cs, arms + [Arm(Inline(e), last.name)])
  }

  /** What both derives emit for a definition; they differ only in how the
      fallback arm fails (`panic!` or `Err`), which the conversion functions
      of `Conversion` tell apart. */
  function Synthesize(d: EnumDefinition<Discriminant>): Table
  {
    var (cs, arms) := Hoist(d.normals);
    Table(cs, arms, arms, FallbackOf(d.unknown))
  }

  /** Hoisting is sound: one arm per normal variant in order; a based
      discriminant gets the constant numbered by how many based ones precede
      it, holding its expression; every key denotes the variant's value. */
  lemma {:induction false} HoistSound(env: Env, normals: seq<Normal<Discriminant>>)
    ensures var (cs, arms) := Hoist(normals);
      && |arms| == |normals| && |cs| == BasedCount(normals) && ArmsInScope(cs, arms)
      && forall i :: 0 <= i < |normals| ==>
        && arms[i].variant == normals[i].name
        && (normals[i].discriminant.HaveBase() ==>
              arms[i].key == Computed(BasedCount(normals[..i]))
              && cs[BasedCount(normals[..i])] == normals[i].discriminant.ToExpr())
        && (!normals[i].discriminant.HaveBase() ==> arms[i].key == Inline(Lit(normals[i].discriminant.v)))
        && KeyValue(env, cs, arms[i].key) == Value(env, normals[i].discriminant)
    decreases |normals|
  {
    if |normals| > 0 {
      var n := |normals| - 1;
      var prefix := normals[..n];
      HoistSound(env, prefix);
      var (cs, arms) := Hoist(prefix);
      var (cs', arms') := Hoist(normals);
      forall i | 0 <= i < |normals|
        ensures arms'[i].variant == normals[i].name
        ensures normals[i].discriminant.HaveBase() ==>
              arms'[i].key == Computed(BasedCount(normals[..i]))
              && cs'[BasedCount(normals[..i])] == normals[i].discriminant.ToExpr()
        ensures !normals[i].discriminant.HaveBase() ==> arms'[i].key == Inline(Lit(normals[i].discriminant.v))
        ensures InScope(cs', arms'[i].key)
        ensures KeyValue(env, cs', arms'[i].key) == Value(env, normals[i].discriminant)
      {
        ToExprValue(env, normals[i].discriminant);
        if i < n {
          assert prefix[i] == normals[i] && prefix[..i] == normals[..i];
          assert arms'[i] == arms[i];
        } else {
          assert normals[..i] == prefix;
        }
      }
    }
  }

  /** The arm loop of the derives, with its counter `n_cv`. */
  method Derive(d: EnumDefinition<Discriminant>) returns (t: Table)
    ensures t == Synthesize(d)
  {
    var computeValues: seq<Expr> := [];
    var nCv: nat := 0;
    var fromArms: seq<Arm> := [];
    var intoArms: seq<Arm> := [];
    for i := 0 to |d.normals|
      invariant (computeValues, fromArms) == Hoist(d.normals[..i])
      invariant intoArms == fromArms && nCv == |computeValues|
    {
      var variant := d.normals[i];
      var discExpr := variant.discriminant.ToExpr();
      var key := Inline(discExpr);
      if variant.discriminant.HaveBase() {
        key := Computed(nCv);
        nCv := nCv + 1;
        computeValues := computeValues + [discExpr];
      }
      fromArms := fromArms + [Arm(key, variant.name)];
      intoArms := intoArms + [Arm(key, variant.name)];
      assert d.normals[..i + 1][..i] == d.normals[..i];
    }
    assert d.normals[..|d.normals|] == d.normals;
    t := Table(computeValues, fromArms, intoArms, FallbackOf(d.unknown));
  }

  /** The generated table is well formed and refers to each normal variant once. */
  lemma SynthesizedWellFormed(env: Env, input: DeriveInput, d: EnumDefinition<Discriminant>)
    requires Build(input) == Ok(d)
    ensures var t := Synthesize(d);
      && WellFormed(t) && t.fromArms == t.intoArms && DistinctVariants(t.intoArms)
      && |t.intoArms| == |d.normals|
      && forall i :: 0 <= i < |d.normals| ==>
        t.intoArms[i].variant == d.normals[i].name
        && KeyValue(env, t.consts, t.intoArms[i].key) == Value(env, d.normals[i].discriminant)
  {
    BuildResult(input, d);
    HoistSound(env, d.normals);
    var t := Synthesize(d);
    forall i, j | 0 <= i < j < |t.intoArms| ensures t.intoArms[i].variant != t.intoArms[j].variant {
      assert Names(d.normals)[i] == d.normals[i].name && Names(d.normals)[j] == d.normals[j].name;
    }
  }

  /** `from(into(X)) == X` for a normal variant X exactly when no earlier
      normal variant has the same value; `into` yields X's discriminant. */
  lemma SynthesizedRoundTrip(env: Env, input: DeriveInput, d: EnumDefinition<Discriminant>, i: nat)
    requires Build(input) == Ok(d) && i < |d.normals|
    ensures WellFormed(Synthesize(d))
    ensures var t, x := Synthesize(d), Named(d.normals[i].name);
      && IsValue(t, x)
      && Into(env, t, x) == Value(env, d.normals[i].discriminant)
      && TryInto(env, t, x) == Ok(Value(env, d.normals[i].discriminant))
      && (From(env, t, Into(env, t, x)) == Returned(x) <==>
          forall j :: 0 <= j < i ==> Value(env, d.normals[j].discriminant) != Value(env, d.normals[i].discriminant))
  {
    SynthesizedWellFormed(env, input, d);
    RoundTrip(env, Synthesize(d), i);
  }

  /** `from` on an integer: the first normal variant in declaration order
      whose value it is; otherwise the unknown variant wrapping it, or a
      panic (and `Err(UnknownVariantError)` from `try_from`) when there is none.
      Whatever `from` returns converts back to the same integer. */
  lemma SynthesizedFrom(env: Env, input: DeriveInput, d: EnumDefinition<Discriminant>, raw: int)
    requires Build(input) == Ok(d)
    ensures WellFormed(Synthesize(d))
    ensures var t := Synthesize(d);
      forall k :: (0 <= k < |d.normals| && Value(env, d.normals[k].discriminant) == raw
                   && forall j :: 0 <= j < k ==> Value(env, d.normals[j].discriminant) != raw) ==>
        From(env, t, raw) == Returned(Named(d.normals[k].name))
    ensures var t := Synthesize(d);
      (forall k :: 0 <= k < |d.normals| ==> Value(env, d.normals[k].discriminant) != raw) ==>
        if d.unknown.Some? then
          From(env, t, raw) == Returned(Wrapped(d.unknown.value, raw)) && TryFrom(env, t, raw) == Ok(Wrapped(d.unknown.value, raw))
        else
          From(env, t, raw) == Panicked && TryFrom(env, t, raw) == Err(UnknownVariantError)
    ensures var t := Synthesize(d);
      From(env, t, raw).Returned? ==> IsValue(t, From(env, t, raw).value) && Into(env, t, From(env, t, raw).value) == raw
  {
    SynthesizedWellFormed(env, input, d);
    var t := Synthesize(d);
    forall k | 0 <= k < |d.normals| && Value(env, d.normals[k].discriminant) == raw
        && (forall j :: 0 <= j < k ==> Value(env, d.normals[j].discriminant) != raw)
      ensures From(env, t, raw) == Returned(Named(d.normals[k].name))
    {
      Matched(env, t, raw, k);
    }
    if forall k :: 0 <= k < |d.normals| ==> Value(env, d.normals[k].discriminant) != raw {
      Unmatched(env, t, raw);
    }
    if From(env, t, raw).Returned? {
      IntoAfterFrom(env, t, raw);
    }
  }

  /** The `NumberConvert` enum of the crate's tests, `#[repr(u8)]`. */
  function NumberConvert(): DeriveInput
  {
    DeriveInput("NumberConvert", [Attribute(["repr"], IdentArg("u8"))], EnumData([
      VariantDecl("Zero", [], None), VariantDecl("One", [], None), VariantDecl("Two", [], None),
      VariantDecl("Three", [], None), VariantDecl("Four", [], None),
      VariantDecl("Ten", [], Some(Lit(10))),
      VariantDecl("Eleven", [], None),
      VariantDecl("Unknown", [Attribute([Marker], IdentArg("unknown"))], None)]))
  }

  /** How the definition pass classifies the test enum's variants. */
  lemma NumberConvertClassified()
    ensures var vs := NumberConvert().data.variants;
      && NormalNames(vs, Marker) == ["Zero", "One", "Two", "Three", "Four", "Ten", "Eleven"]
      && UnknownCount(vs, Marker) == 1
      && FirstUnknown(vs, Marker) == Some("Unknown")
      && NormalExplicits(vs, Marker) == [None, None, None, None, None, Some(Lit(10)), None]
  {
    var vs := NumberConvert().data.variants;
    assert KindOf(vs[7], Marker) == Ok(UnknownKind);
  }

  /** The generator over the test enum's normal variants: the literal `10`
      is folded and the next variant continues from it. */
  lemma NumberConvertResolved()
    ensures Resolve(ZhiSequencer(true), Fresh, [None, None, None, None, None, Some(Lit(10)), None]).0
      == [Discriminant(0, None), Discriminant(1, None), Discriminant(2, None), Discriminant(3, None),
          Discriminant(4, None), Discriminant(10, None), Discriminant(11, None)]
  {
    var es: seq<Option<Expr>> := [None, None, None, None, None, Some(Lit(10)), None];
    var sq := ZhiSequencer(true);
    assert Resolve(sq, GenState(None, 11), es[6..]).0 == [Discriminant(11, None)];
    assert Resolve(sq, GenState(None, 5), es[5..]).0 == [Discriminant(10, None), Discriminant(11, None)];
    assert Resolve(sq, GenState(None, 4), es[4..]).0 == [Discriminant(4, None), Discriminant(10, None), Discriminant(11, None)];
    assert Resolve(sq, GenState(None, 3), es[3..]).0 == [Discriminant(3, None), Discriminant(4, None), Discriminant(10, None), Discriminant(11, None)];
    assert Resolve(sq, GenState(None, 2), es[2..]).0 == [Discriminant(2, None), Discriminant(3, None), Discriminant(4, None), Discriminant(10, None), Discriminant(11, None)];
    assert Resolve(sq, GenState(None, 1), es[1..]).0 == [Discriminant(1, None), Discriminant(2, None), Discriminant(3, None), Discriminant(4, None), Discriminant(10, None), Discriminant(11, None)];
  }

  /** The test enum builds: its normal variants in order, `Ten` folded to
      the literal 10 and `Eleven` continuing at 11, and `Unknown` the catch-all. */
  lemma NumberConvertBuilt()
    ensures Build(NumberConvert()).Ok?
    ensures var d := Build(NumberConvert()).value;
      && Names(d.normals) == ["Zero", "One", "Two", "Three", "Four", "Ten", "Eleven"]
      && d.unknown == Some("Unknown")
      && Discriminants(d.normals) == [Discriminant(0, None), Discriminant(1, None), Discriminant(2, None),
           Discriminant(3, None), Discriminant(4, None), Discriminant(10, None), Discriminant(11, None)]
  {
    var input := NumberConvert();
    var vs := input.data.variants;
    var names := ["Zero", "One", "Two", "Three", "Four", "Ten", "Eleven"];
    assert ParseRepr(input.attrs) == Ok("u8");
    NumberConvertClassified();
    assert AllClassify(vs, Marker) by {
      forall i | 0 <= i < |vs| ensures KindOf(vs[i], Marker).Ok? {
        assert i < 7 ==> vs[i].attrs == [];
      }
    }
    assert Distinct(names);
    BuildSucceedsIff(input);
    var d := Build(input).value;
    BuildResult(input, d);
    NumberConvertResolved();
  }

  /** The tests' expectations: `Three` converts to 3, `Ten` to 10 and
      `Eleven` to 11, by `into` and by `try_into`. */
  lemma NumberConvertExample(env: Env)
    ensures Build(NumberConvert()).Ok?
    ensures WellFormed(Synthesize(Build(NumberConvert()).value))
    ensures var t := Synthesize(Build(NumberConvert()).value);
      && IsValue(t, Named("Three")) && Into(env, t, Named("Three")) == 3 && TryInto(env, t, Named("Three")) == Ok(3)
      && IsValue(t, Named("Ten")) && Into(env, t, Named("Ten")) == 10 && TryInto(env, t, Named("Ten")) == Ok(10)
      && IsValue(t, Named("Eleven")) && Into(env, t, Named("Eleven")) == 11 && TryInto(env, t, Named("Eleven")) == Ok(11)
  {
    NumberConvertBuilt();
    var d := Build(NumberConvert()).value;
    assert d.normals[3].name == Names(d.normals)[3] == "Three";
    assert d.normals[5].name == Names(d.normals)[5] == "Ten";
    assert d.normals[6].name == Names(d.normals)[6] == "Eleven";
    assert d.normals[3].discriminant == Discriminants(d.normals)[3] == Discriminant(3, None);
    assert d.normals[5].discriminant == Discriminants(d.normals)[5] == Discriminant(10, None);
    assert d.normals[6].discriminant == Discriminants(d.normals)[6] == Discriminant(11, None);
    SynthesizedRoundTrip(env, NumberConvert(), d, 3);
    SynthesizedRoundTrip(env, NumberConvert(), d, 5);
    SynthesizedRoundTrip(env, NumberConvert(), d, 6);
  }
}
