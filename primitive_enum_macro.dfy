/**
 * The older generation's derive macros `EnumConvert` and `EnumTryConvert`:
 * the same definition pass with marker `#[primitive_enum(unknown)]`, and arms
 * that carry each discriminant expression inline, with no constants.
 */
module PrimitiveEnumMacro {
  import opened Wrappers
  import opened EnumInput
  import opened Definition
  import opened Conversion
  import opened PrimitiveDiscriminant

  const Marker: string := "primitive_enum"

  /** `EnumDefinition::new`: enum, then `repr`, then a supported repr, before
      any variant is looked at. */
  function Build(input: DeriveInput): Result<EnumDefinition<Expr>, BuildError>
  {
    if !input.data.EnumData? then Err(NotAnEnum)
    else
      match ParseRepr(input.attrs)
      case Err(e) => Err(e)
      case Ok(repr) =>
        match CheckRepr(repr)
        case Err(e) => Err(e)
        case Ok(_) =>
          match Walk(Marker, PrimitiveSequencer(), Acc(Fresh, None, []), input.data.variants)
          case Err(e) => Err(e)
          case Ok(a) => Ok(EnumDefinition(input.name, repr, a.unknown, a.normals))
  }

  /** `EnumDefinition::new` as the macro runs it: one loop over the variants
      that drives a `Discriminant` sequencer and records normal names in a set. */
  method NewEnumDefinition(input: DeriveInput) returns (r: Result<EnumDefinition<Expr>, BuildError>)
    ensures r == Build(input)
  {
    if !input.data.EnumData? {
      return Err(NotAnEnum);
    }
    var variants := input.data.variants;
    var repr := ParseRepr(input.attrs);
    if repr.Err? {
      return Err(repr.error);
    }
    var created := Discriminant.New(repr.value);
    if created.Err? {
      return Err(created.error);
    }
    var next := created.value;
    ghost var sq := PrimitiveSequencer();
    var unknown: Option<string> := None;
    var normals: seq<Normal<Expr>> := [];
    var seen: set<string> := {};
    var i := 0;
    while i < |variants|
      invariant 0 <= i <= |variants|
      invariant forall x :: x in seen <==> x in Names(normals)
      invariant Walk(Marker, sq, Acc(Fresh, None, []), variants)
        == Walk(Marker, sq, Acc(next.State(), unknown, normals), variants[i..])
    {
      var v := variants[i];
      assert variants[i..][0] == v && variants[i..][1..] == variants[i + 1..];
      var kind := KindOf(v, Marker);
      if kind.Err? {
        return Err(kind.error);
      }
      if kind.value == UnknownKind {
        if unknown.Some? {
          return Err(MultipleUnknown(v.name));
        }
        unknown := Some(v.name);
      } else {
        var d;
        if v.discriminant.Some? {
          next.Reset(v.discriminant.value);
          d := v.discriminant.value;
        } else {
          d := next.Next();
        }
        if v.name in seen {
          return Err(DuplicateVariant(v.name));
        }
        seen := seen + {v.name};
        normals := normals + [Normal(v.name, d)];
        assert Names(normals) == Names(normals[..|normals| - 1]) + [v.name];
      }
      i := i + 1;
    }
    return Ok(EnumDefinition(input.name, repr.value, unknown, normals));
  }

  /** Construction succeeds exactly when the item is an enum with a supported
      `repr`, every marker attribute reads `unknown`, at most one variant is
      unknown, and no two normal variants share a name. */
  lemma BuildSucceedsIff(input: DeriveInput)
    ensures Build(input).Ok? <==>
      && input.data.EnumData?
      && ParseRepr(input.attrs).Ok?
      && CheckRepr(ParseRepr(input.attrs).value).Ok?
      && AllClassify(input.data.variants, Marker)
      && UnknownCount(input.data.variants, Marker) <= 1
      && Distinct(NormalNames(input.data.variants, Marker))
  {
    if input.data.EnumData? && ParseRepr(input.attrs).Ok? && CheckRepr(ParseRepr(input.attrs).value).Ok? {
      assert Names<Expr>([]) + NormalNames(input.data.variants, Marker) == NormalNames(input.data.variants, Marker);
      WalkSucceedsIff(Marker, PrimitiveSequencer(), Acc(Fresh, None, []), input.data.variants);
    }
  }

  /** A built definition: the normal variants in declaration order with
      distinct names, their expressions handed out by the sequencer over the
      normal variants alone, and the unknown variant if one was marked. */
  lemma BuildResult(input: DeriveInput, d: EnumDefinition<Expr>)
    requires Build(input) == Ok(d)
    ensures input.data.EnumData? && ParseRepr(input.attrs) == Ok(d.repr)
    ensures Names(d.normals) == NormalNames(input.data.variants, Marker)
    ensures Distinct(Names(d.normals))
    ensures d.unknown == FirstUnknown(input.data.variants, Marker)
    ensures Discriminants(d.normals) == Resolve(PrimitiveSequencer(), Fresh, NormalExplicits(input.data.variants, Marker)).0
  {
    var vs := input.data.variants;
    var acc0 := Acc(Fresh, None, []);
    WalkResult(Marker, PrimitiveSequencer(), acc0, vs);
    WalkSucceedsIff(Marker, PrimitiveSequencer(), acc0, vs);
    assert Names(acc0.normals) + NormalNames(vs, Marker) == NormalNames(vs, Marker);
    assert Discriminants(acc0.normals) + Resolve(PrimitiveSequencer(), Fresh, NormalExplicits(vs, Marker)).0
      == Resolve(PrimitiveSequencer(), Fresh, NormalExplicits(vs, Marker)).0;
  }

  /** One arm per normal variant, its expression inline. */
  function InlineArms(normals: seq<Normal<Expr>>): (arms: seq<Arm>)
    ensures |arms| == |normals|
    ensures forall i :: 0 <= i < |normals| ==> arms[i] == Arm(Inline(normals[i].discriminant), normals[i].name)
  {
    seq(|normals|, i requires 0 <= i < |normals| => Arm(Inline(normals[i].discriminant), normals[i].name))
  }

  /** What both derives emit for a definition; they differ only in how the
      fallback arm fails (`panic!` or `Err`). */
  function Synthesize(d: EnumDefinition<Expr>): Table
  {
    Table([], InlineArms(d.normals), InlineArms(d.normals), FallbackOf(d.unknown))
  }

  /** The arm loop of the derives. */
  method Derive(d: EnumDefinition<Expr>) returns (t: Table)
    ensures t == Synthesize(d)
  {
    var fromArms: seq<Arm> := [];
    var intoArms: seq<Arm> := [];
    for i := 0 to |d.normals|
      invariant fromArms == intoArms == InlineArms(d.normals[..i])
    {
      var disc := d.normals[i].discriminant;
      fromArms := fromArms + [Arm(Inline(disc), d.normals[i].name)];
      intoArms := intoArms + [Arm(Inline(disc), d.normals[i].name)];
    }
    assert d.normals[..|d.normals|] == d.normals;
    t := Table([], fromArms, intoArms, FallbackOf(d.unknown));
  }

  /** The generated table is well formed and refers to each normal variant once. */
  lemma SynthesizedWellFormed(env: Env, input: DeriveInput, d: EnumDefinition<Expr>)
    requires Build(input) == Ok(d)
    ensures var t := Synthesize(d);
      && WellFormed(t) && t.fromArms == t.intoArms && DistinctVariants(t.intoArms)
      && |t.intoArms| == |d.normals|
      && forall i :: 0 <= i < |d.normals| ==>
        t.intoArms[i].variant == d.normals[i].name
        && KeyValue(env, t.consts, t.intoArms[i].key) == Eval(env, d.normals[i].discriminant)
  {
    BuildResult(input, d);
    var t := Synthesize(d);
    forall i, j | 0 <= i < j < |t.intoArms| ensures t.intoArms[i].variant != t.intoArms[j].variant {
      assert Names(d.normals)[i] == d.normals[i].name && Names(d.normals)[j] == d.normals[j].name;
    }
  }

  /** `from(into(X)) == X` for a normal variant X exactly when no earlier
      normal variant has the same value; `into` yields X's expression's value. */
  lemma SynthesizedRoundTrip(env: Env, input: DeriveInput, d: EnumDefinition<Expr>, i: nat)
    requires Build(input) == Ok(d) && i < |d.normals|
    ensures WellFormed(Synthesize(d))
    ensures var t, x := Synthesize(d), Named(d.normals[i].name);
      && IsValue(t, x)
      && Into(env, t, x) == Eval(env, d.normals[i].discriminant)
      && TryInto(env, t, x) == Ok(Eval(env, d.normals[i].discriminant))
      && (From(env, t, Into(env, t, x)) == Returned(x) <==>
          forall j :: 0 <= j < i ==> Eval(env, d.normals[j].discriminant) != Eval(env, d.normals[i].discriminant))
  {
    SynthesizedWellFormed(env, input, d);
    RoundTrip(env, Synthesize(d), i);
  }

  /** `from` on an integer: the first normal variant in declaration order
      whose value it is; otherwise the unknown variant wrapping it, or a
      panic (and `Err(UnknownVariantError)` from `try_from`) when there is none.
      Whatever `from` returns converts back to the same integer. */
  lemma SynthesizedFrom(env: Env, input: DeriveInput, d: EnumDefinition<Expr>, raw: int)
    requires Build(input) == Ok(d)
    ensures WellFormed(Synthesize(d))
    ensures var t := Synthesize(d);
      forall k :: (0 <= k < |d.normals| && Eval(env, d.normals[k].discriminant) == raw
                   && forall j :: 0 <= j < k ==> Eval(env, d.normals[j].discriminant) != raw) ==>
        From(env, t, raw) == Returned(Named(d.normals[k].name))
    ensures var t := Synthesize(d);
      (forall k :: 0 <= k < |d.normals| ==> Eval(env, d.normals[k].discriminant) != raw) ==>
        if d.unknown.Some? then
          From(env, t, raw) == Returned(Wrapped(d.unknown.value, raw)) && TryFrom(env, t, raw) == Ok(Wrapped(d.unknown.value, raw))
        else
          From(env, t, raw) == Panicked && TryFrom(env, t, raw) == Err(UnknownVariantError)
    ensures var t := Synthesize(d);
      From(env, t, raw).Returned? ==> IsValue(t, From(env, t, raw).value) && Into(env, t, From(env, t, raw).value) == raw
  {
    SynthesizedWellFormed(env, input, d);
    var t := Synthesize(d);
    forall k | 0 <= k < |d.normals| && Eval(env, d.normals[k].discriminant) == raw
        && (forall j :: 0 <= j < k ==> Eval(env, d.normals[j].discriminant) != raw)
      ensures From(env, t, raw) == Returned(Named(d.normals[k].name))
    {
      Matched(env, t, raw, k);
    }
    if forall k :: 0 <= k < |d.normals| ==> Eval(env, d.normals[k].discriminant) != raw {
      Unmatched(env, t, raw);
    }
    if From(env, t, raw).Returned? {
      IntoAfterFrom(env, t, raw);
    }
  }

  /** The `NumberConvert` enum of the crate's tests, `#[repr(u8)]`. */
  function NumberConvert(): DeriveInput
  {
    DeriveInput("NumberConvert", [Attribute(["repr"], IdentArg("u8"))], EnumData([
      VariantDecl("Zero", [], None), VariantDecl("One", [], None), VariantDecl("Two", [], None),
      VariantDecl("Three", [], None), VariantDecl("Four", [], None),
      VariantDecl("Unknown", [Attribute([Marker], IdentArg("unknown"))], None)]))
  }

  /** How the definition pass classifies the test enum's variants. */
  lemma NumberConvertClassified()
    ensures var vs := NumberConvert().data.variants;
      && NormalNames(vs, Marker) == ["Zero", "One", "Two", "Three", "Four"]
      && UnknownCount(vs, Marker) == 1
      && FirstUnknown(vs, Marker) == Some("Unknown")
      && NormalExplicits(vs, Marker) == [None, None, None, None, None]
  {
    var vs := NumberConvert().data.variants;
    assert KindOf(vs[5], Marker) == Ok(UnknownKind);
  }

  /** The test enum builds: `Zero` to `Four` numbered 0 to 4, `Unknown` the catch-all. */
  lemma NumberConvertBuilt()
    ensures Build(NumberConvert()).Ok?
    ensures var d := Build(NumberConvert()).value;
      && Names(d.normals) == ["Zero", "One", "Two", "Three", "Four"]
      && d.unknown == Some("Unknown")
      && Discriminants(d.normals) == [Lit(0), Lit(1), Lit(2), Lit(3), Lit(4)]
  {
    var input := NumberConvert();
    var vs := input.data.variants;
    assert ParseRepr(input.attrs) == Ok("u8");
    NumberConvertClassified();
    assert [None, None, None, None, None] == Implicit(5);
    assert AllClassify(vs, Marker) by {
      forall i | 0 <= i < |vs| ensures KindOf(vs[i], Marker).Ok? {
        assert i < 5 ==> vs[i].attrs == [];
      }
    }
    assert Distinct(["Zero", "One", "Two", "Three", "Four"]);
    BuildSucceedsIff(input);
    var d := Build(input).value;
    BuildResult(input, d);
    DefaultNumbering(_ => 0, 5);
  }

  /** The test's expectation `NumberConvert::Zero.into_u8() == 0`, and an
      unassigned integer such as 7 landing in `Unknown(7)`. */
  lemma NumberConvertExample(env: Env)
    ensures Build(NumberConvert()).Ok?
    ensures WellFormed(Synthesize(Build(NumberConvert()).value))
    ensures var t := Synthesize(Build(NumberConvert()).value);
      && IsValue(t, Named("Zero")) && Into(env, t, Named("Zero")) == 0 && TryInto(env, t, Named("Zero")) == Ok(0)
      && From(env, t, 7) == Returned(Wrapped("Unknown", 7)) && TryFrom(env, t, 7) == Ok(Wrapped("Unknown", 7))
  {
    NumberConvertBuilt();
    var d := Build(NumberConvert()).value;
    assert d.normals[0].name == Names(d.normals)[0] == "Zero";
    assert d.normals[0].discriminant == Discriminants(d.normals)[0] == Lit(0);
    SynthesizedRoundTrip(env, NumberConvert(), d, 0);
    forall k | 0 <= k < |d.normals| ensures Eval(env, d.normals[k].discriminant) != 7 {
      assert d.normals[k].discriminant == Discriminants(d.normals)[k];
    }
    SynthesizedFrom(env, NumberConvert(), d, 7);
  }

  /** An enum with `Ten = 10` followed by an implicit `Eleven`. */
  function TenEleven(): DeriveInput
  {
    DeriveInput("TenEleven", [Attribute(["repr"], IdentArg("u8"))], EnumData([
      VariantDecl("Ten", [], Some(Lit(10))), VariantDecl("Eleven", [], None)]))
  }

  /** In this generation the variant after `Ten = 10` gets `10 + 0`. In the
      arm table the derives build, `Eleven`'s key has the value 10, and 10
      leads back to `Ten`. (rustc rejects `10 + 0_u8` as a `match` pattern,
      so the emitted `from` does not compile for this enum; this lemma is
      about the table's meaning.) */
  lemma TenElevenCollide(env: Env)
    ensures Build(TenEleven()).Ok?
    ensures var d := Build(TenEleven()).value;
      && Names(d.normals) == ["Ten", "Eleven"]
      && Discriminants(d.normals) == [Lit(10), Add(Lit(10), 0)]
    ensures WellFormed(Synthesize(Build(TenEleven()).value))
    ensures var t := Synthesize(Build(TenEleven()).value);
      && IsValue(t, Named("Eleven")) && Into(env, t, Named("Eleven")) == 10
      && From(env, t, 10) == Returned(Named("Ten"))
  {
    var input := TenEleven();
    var vs := input.data.variants;
    assert ParseRepr(input.attrs) == Ok("u8");
    assert AllClassify(vs, Marker) by {
      forall i | 0 <= i < |vs| ensures KindOf(vs[i], Marker).Ok? {
        assert vs[i].attrs == [];
      }
    }
    assert NormalNames(vs, Marker) == ["Ten", "Eleven"];
    assert NormalExplicits(vs, Marker) == [Some(Lit(10)), None] == [Some(Lit(10))] + Implicit(1);
    BuildSucceedsIff(input);
    var d := Build(input).value;
    BuildResult(input, d);
    ExplicitThenImplicit(env, Fresh, Lit(10), 1);
    assert d.normals[0].name == Names(d.normals)[0] && d.normals[1].name == Names(d.normals)[1];
    assert d.normals[0].discriminant == Discriminants(d.normals)[0];
    assert d.normals[1].discriminant == Discriminants(d.normals)[1];
    SynthesizedRoundTrip(env, input, d, 1);
    SynthesizedFrom(env, input, d, 10);
  }
}
