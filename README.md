# zhi_enum / primitive_enum derive macros, modelled in Dafny

The repository provides derive macros for a Rust enum with
`#[repr(<integer>)]`. They give the enum conversions to and from that integer
type:

- `EnumConvert`: `From<repr>`, `Into<repr>` and `into_<repr>()`.
- `EnumTryConvert`: `TryFrom<repr>`, `TryInto<repr>` and `try_into_<repr>()`.

The normal variants carry no fields. One variant, marked
`#[zhi_enum(unknown)]` (older generation: `#[primitive_enum(unknown)]`), may
carry the integer, as in `Unknown(u8)`. It holds any integer no normal variant
claims.

The macros exist in two generations, `zhi_enum_derive` and
`primitive_enum_macro`. They share the structure of the definition pass and
the `match`-based shape of the generated impls. They differ in:

- the marker attribute: `zhi_enum` or `primitive_enum`;
- the reprs they accept: the newer also takes `isize` and `usize`;
- the discriminant sequencer: the newer folds integer literals and continues
  after an explicit discriminant `e` with `e + 1`; the older continues with
  `e + 0`;
- the generated keys: the newer hoists computed discriminants into
  `ZHI_ENUM_COMPUTED_<n>` constants, the older writes every expression inline
  as the `match` pattern.

The model has these modules:

- `EnumInput`: the parsed item the macro receives.
  - Discriminant expressions are syntax trees: an integer literal `Lit`, a
    shift by a literal `Shl`, the `base + literal` node `Add`, and `Opaque`
    for anything else.
  - Expressions are evaluated in an environment that gives opaque
    expressions their value.
  - Also here: `#[repr(..)]` lookup, the classification of a variant by its
    marker attribute, and the errors of `EnumDefinition::new`.
- `Definition`: the pass of `EnumDefinition::new` over the variants. It is
  stated once over a sequencer made of two step functions, `next` and
  `reset`.
- `Conversion`: what the generated impls compute.
  - The generated code is an optional list of constants, one `match` arm per
    normal variant in declaration order, and a fallback arm.
  - `From`, `Into`, `TryFrom` and `TryInto` are defined over it, with Rust's
    first-arm-wins `match`.
- `ZhiDiscriminant` / `ZhiEnumDerive`: the newer generation.
  - `Generator` is a class whose `next`/`reset` update its fields in place.
  - `NewEnumDefinition` is the loop of `EnumDefinition::new`.
  - `Derive` is the arm loop with its constant hoisting.
- `PrimitiveDiscriminant` / `PrimitiveEnumMacro`: the older generation.
- `Generations`: how the two sequencers relate.

The loop over the variants in `EnumDefinition::new` and the arm loops of
the derives are methods, each proved equal to a specification function. The
attribute searches of `parse_repr` and `parse_variant` are the recursive
function `EnumInput.FirstAttr`. The properties are proved about the
specification functions:

- construction succeeds exactly under stated conditions, and a failure
  reports the first offending variant's error;
- normal variants keep declaration order and names;
- unknown variants never advance the sequencer;
- hoisting is sound;
- `from(into(x)) == x` holds exactly when no earlier variant has the same
  value;
- whatever `from` returns converts back to its input;
- the crates' test enums convert as their tests expect.

Three facts about the code that the model follows:

- A computed discriminant is emitted with a plain `+` (`base + k`), not a
  wrapping add. The model evaluates it over unbounded integers.
- Only normal variant names are checked for duplicates. An unknown variant
  sharing a name with a normal one passes the definition pass.
- In the newer generation, on a computable repr (i8 to i64, u8 to u32), an
  explicit integer literal is folded when it parses as `i64`, even if it
  does not fit the repr. On the other reprs, and always in the older
  generation, an explicit discriminant becomes the base of the following
  ones.

## Model

| member | source | states |
|---|---|---|
| EnumInput.ParseRepr | zhi_enum_derive/src/lib.rs:64-80 | the first attribute whose path is `repr` decides: its single identifier argument, `MalformedReprArgs` for any other argument, `MissingRepr` when there is none |
| EnumInput.KindOf | zhi_enum_derive/src/lib.rs:141-152 | the first marker attribute decides: `unknown` makes the variant unknown, any other argument is `MalformedVariantArgs`; without a marker the variant is normal |
| Definition.Assign | zhi_enum_derive/src/lib.rs:126-140 | `reset` with the explicit discriminant when there is one, `next` otherwise |
| Definition.Step | zhi_enum_derive/src/lib.rs:101-116 | one loop iteration: classify, reject a second unknown variant or a taken normal name, else record the variant |
| Definition.Walk | zhi_enum_derive/src/lib.rs:100-119 | the loop over the variants in declaration order, ending at the first error |
| Definition.StepError | zhi_enum_derive/src/lib.rs:101-116 | a step fails exactly with `MalformedVariantArgs`, `MultipleUnknown` when an unknown variant was already seen, or `DuplicateVariant` when the normal name is taken |
| Definition.WalkFirstFailure | zhi_enum_derive/src/lib.rs:100-117 | a failing pass reports the error of the first variant whose step fails, after accepting every variant before it |
| Conversion.FallbackOf | zhi_enum_derive/src/lib.rs:199-213 | the last arm wraps into the unknown variant when there is one, else panics / returns `Err` |
| Conversion.From | zhi_enum_derive/src/lib.rs:216-225 | the first arm whose key equals the integer, else the fallback arm |
| Conversion.Into | zhi_enum_derive/src/lib.rs:227-235 | the key of the first arm naming the variant; the wrapped integer for the unknown variant |
| ZhiDiscriminant.Discriminant.HaveBase | zhi_enum_derive/src/discriminant.rs:18-20 | whether the discriminant has a base expression |
| ZhiDiscriminant.Discriminant.ToExpr | zhi_enum_derive/src/discriminant.rs:21-37 | the literal v without a base; the base itself for v = 0; otherwise the base plus v |
| ZhiDiscriminant.ClassifyRepr | zhi_enum_derive/src/discriminant.rs:49-61 | computable for i8..i64 and u8..u32, not computable for i128, u64, u128, isize, usize; `C` and anything else rejected |
| ZhiDiscriminant.NextStep | zhi_enum_derive/src/discriminant.rs:70-79 | `next`: the current base and v, and v one higher |
| ZhiDiscriminant.ResetStep | zhi_enum_derive/src/discriminant.rs:81-107 | `reset`: an i64 literal on a computable repr is folded (v+1 next); anything else becomes the base with v = 1 next |
| ZhiDiscriminant.SpliceAdd | zhi_enum_derive/src/discriminant.rs:33 | the tree syn/rustc parse from the spliced tokens `#base + #literal`: a shift base takes the literal into its amount |
| ZhiDiscriminant.Reparse | zhi_enum_derive/src/discriminant.rs:21-37 | what `to_expr` returns: the tree syn/rustc parse from the spliced tokens |
| ZhiDiscriminant.ReparseMeaning | zhi_enum_derive/src/discriminant.rs:29-35 | the re-parsed expression is the intended tree iff the literal is not appended to a shift; then the shift amount, not the value, grows by v |
| ZhiDiscriminant.ShiftBaseExample | zhi_enum_derive/src/discriminant.rs:29-35 | after `A = 1 << 4`, `B`'s discriminant is 17 but the emitted `1 << 4 + 1_u8` is 32 |
| ZhiEnumDerive.Build | zhi_enum_derive/src/lib.rs:82-120 | enum check, `repr` lookup, generator creation, then the variant pass, each error returned as it occurs |
| ZhiEnumDerive.Hoist | zhi_enum_derive/src/lib.rs:173-197 | the constants and arms after a prefix of the normal variants: a based discriminant becomes the next `ZHI_ENUM_COMPUTED_<n>` |
| ZhiEnumDerive.Synthesize | zhi_enum_derive/src/lib.rs:173-213 | the constants, the same arms for both directions, and the fallback arm |
| PrimitiveDiscriminant.CheckRepr | primitive_enum_macro/src/discriminant.rs:15-33 | the ten fixed-width types accepted; `C` and anything else rejected |
| PrimitiveDiscriminant.NextStep | primitive_enum_macro/src/discriminant.rs:41-57 | `next`: the literal v, or base + v, and v one higher |
| PrimitiveDiscriminant.ResetStep | primitive_enum_macro/src/lib.rs:126-135 | an explicit discriminant is kept verbatim and becomes the base with v = 0 |
| PrimitiveEnumMacro.Build | primitive_enum_macro/src/lib.rs:82-120 | enum check, `repr` lookup, sequencer creation, then the variant pass, each error returned as it occurs |
| PrimitiveEnumMacro.Synthesize | primitive_enum_macro/src/lib.rs:174-202 | no constants, the same inline arms for both directions, and the fallback arm |
| EnumInput.FirstAttr | zhi_enum_derive/src/lib.rs:64-73 | the attribute `parse_repr` stops at is the first one whose path is the identifier; no earlier one is, and none at all when it finds none |
| EnumInput.KindOfUnknown | zhi_enum_derive/src/lib.rs:141-152 | a variant is the unknown one exactly when some marker attribute reads `unknown` and no earlier attribute is a marker |
| Definition.Resolve | zhi_enum_derive/src/lib.rs:126-140 | the sequencer hands out exactly one discriminant per normal variant |
| Definition.WalkAppend | zhi_enum_derive/src/lib.rs:100-117 | the first failing variant ends the pass; a successful prefix hands its state to the rest |
| Definition.WalkSucceedsIff | zhi_enum_derive/src/lib.rs:100-117 | the pass succeeds iff every variant's marker arguments parse, at most one variant is unknown, and the normal names are pairwise distinct |
| Definition.WalkResult | zhi_enum_derive/src/lib.rs:100-140 | a successful pass keeps the normal variants in declaration order; their discriminants are what the sequencer gives for the normal variants alone; the unknown variant is the first marked one |
| Conversion.FirstMatch | zhi_enum_derive/src/lib.rs:216-224 | `from` takes the first arm whose key equals the integer; no earlier arm matches; none matches when it finds none |
| Conversion.FindVariant | zhi_enum_derive/src/lib.rs:227-234 | `into` takes the first arm naming the variant; none when no arm names it |
| Conversion.TryFrom | zhi_enum_derive/src/lib.rs:285-312 | `try_from` is `Ok` exactly when `from` returns, and then with the same value |
| Conversion.TryInto | zhi_enum_derive/src/lib.rs:285-323 | `try_into` never fails on a value of the enum and agrees with `into` |
| Conversion.RoundTrip | zhi_enum_derive/src/lib.rs:216-234 | `into` of a normal variant is its arm's key; `from` of that key gives the variant back iff no earlier arm has the same value |
| Conversion.IntoAfterFrom | zhi_enum_derive/src/lib.rs:199-234 | whatever `from` returns is a value of the enum that `into` maps back to the same integer |
| Conversion.Unmatched | zhi_enum_derive/src/lib.rs:199-213 | an integer no arm matches is wrapped by the unknown variant, or `from` panics and `try_from` returns `UnknownVariantError` |
| Conversion.Matched | zhi_enum_derive/src/lib.rs:216-224 | an integer some arm matches gives the first matching variant, whatever the fallback |
| ZhiDiscriminant.ToExprValue | zhi_enum_derive/src/discriminant.rs:18-37 | the emitted expression denotes base + v (the base alone for v = 0); a base-less discriminant is a plain literal |
| ZhiDiscriminant.ClassifyReprMeaning | zhi_enum_derive/src/discriminant.rs:49-61 | accepted are the integer types; a fixed-width one is computable iff its range fits in i64; isize/usize are not computable; `C` has its own error |
| ZhiDiscriminant.NextRun | zhi_enum_derive/src/discriminant.rs:70-79 | successive `next` calls keep the base and count up by one |
| ZhiDiscriminant.DefaultNumbering | zhi_enum_derive/src/discriminant.rs:62-79 | without explicit discriminants the variants get the literals 0, 1, 2, ... |
| ZhiDiscriminant.ExplicitThenImplicit | zhi_enum_derive/src/discriminant.rs:81-107 | after an explicit `e` the values are e, e+1, ..., e+n; folded to literals when the repr is computable and `e` an i64 literal, otherwise over base `e` |
| ZhiDiscriminant.ResetForgetsState | zhi_enum_derive/src/discriminant.rs:81-107 | what follows an explicit discriminant does not depend on the state before it |
| ZhiDiscriminant.Generator.constructor | zhi_enum_derive/src/discriminant.rs:62-67 | a new generator has no base and counter 0 |
| ZhiDiscriminant.Generator.New | zhi_enum_derive/src/discriminant.rs:49-68 | fails with the repr's error exactly for unsupported reprs, otherwise a fresh generator with the repr's computability |
| ZhiDiscriminant.Generator.Next | zhi_enum_derive/src/discriminant.rs:70-79 | returns the current base and counter and advances the counter, as the `next` step function |
| ZhiDiscriminant.Generator.Reset | zhi_enum_derive/src/discriminant.rs:81-107 | returns and stores what the `reset` step function gives: folded literal and v+1, or base `e` with v = 1 |
| ZhiEnumDerive.NewEnumDefinition | zhi_enum_derive/src/lib.rs:82-120 | the imperative loop returns exactly the result of the definition pass |
| ZhiEnumDerive.BuildSucceedsIff | zhi_enum_derive/src/lib.rs:82-120 | construction succeeds iff the item is an enum with a supported repr, marker arguments parse, at most one unknown variant and distinct normal names |
| ZhiEnumDerive.BuildResult | zhi_enum_derive/src/lib.rs:82-140 | a built definition has the repr of the first `repr` attribute, the normal variants in order with distinct names, the generator's discriminants for them, and the first unknown variant |
| ZhiEnumDerive.HoistSound | zhi_enum_derive/src/lib.rs:173-197 | one arm per normal variant in order; a based discriminant gets `ZHI_ENUM_COMPUTED_<n>`, n counting the based ones before it, holding its expression; every key denotes the variant's value |
| ZhiEnumDerive.Derive | zhi_enum_derive/src/lib.rs:173-213 | the arm loop with its `n_cv` counter produces exactly the specified constants, arms and fallback |
| ZhiEnumDerive.SynthesizedWellFormed | zhi_enum_derive/src/lib.rs:173-213 | the generated table refers only to emitted constants, names each normal variant once, and each key denotes that variant's discriminant value |
| ZhiEnumDerive.SynthesizedRoundTrip | zhi_enum_derive/src/lib.rs:216-234 | `into`/`try_into` of a normal variant give its discriminant; `from` of it gives the variant back iff no earlier variant has the same value |
| ZhiEnumDerive.SynthesizedFrom | zhi_enum_derive/src/lib.rs:199-234 | `from` gives the first variant with that value, else the unknown variant wrapping it, else panics (`try_from`: `Err`); its result converts back |
| ZhiEnumDerive.NumberConvertClassified | zhi_enum/tests/test.rs:7-19 | the test enum has normal variants Zero..Four, Ten, Eleven, one unknown variant, and only `Ten` explicit |
| ZhiEnumDerive.NumberConvertResolved | zhi_enum/tests/test.rs:7-19 | the generator gives the test enum 0..4, then folds `Ten = 10` and continues with 11 |
| ZhiEnumDerive.NumberConvertBuilt | zhi_enum/tests/test.rs:7-19 | the test enum builds with those names, discriminants and `Unknown` as the unknown variant |
| ZhiEnumDerive.NumberConvertExample | zhi_enum/tests/test.rs:36-44 | Three, Ten and Eleven convert to 3, 10 and 11 by `into` and by `try_into` |
| PrimitiveDiscriminant.CheckReprMeaning | primitive_enum_macro/src/discriminant.rs:15-33 | accepted are exactly the fixed-width integer types; `C` has its own error; isize/usize are rejected |
| PrimitiveDiscriminant.NextRun | primitive_enum_macro/src/discriminant.rs:41-57 | successive `next` calls give base + k (or the literal k) with k counting up by one |
| PrimitiveDiscriminant.DefaultNumbering | primitive_enum_macro/src/discriminant.rs:34-57 | without explicit discriminants the variants get the literals 0, 1, 2, ... |
| PrimitiveDiscriminant.ExplicitThenImplicit | primitive_enum_macro/src/discriminant.rs:41-62 | after an explicit `e` the expressions are e, e+0, e+1, ...: the first implicit one repeats e's value |
| PrimitiveDiscriminant.Discriminant.constructor | primitive_enum_macro/src/discriminant.rs:34-38 | a new sequencer has no base and counter 0 |
| PrimitiveDiscriminant.Discriminant.New | primitive_enum_macro/src/discriminant.rs:15-39 | fails with the repr's error exactly for unsupported reprs, otherwise a fresh sequencer |
| PrimitiveDiscriminant.Discriminant.Next | primitive_enum_macro/src/discriminant.rs:41-57 | returns the literal or base + counter and advances the counter, as the `next` step function |
| PrimitiveDiscriminant.Discriminant.Reset | primitive_enum_macro/src/discriminant.rs:59-62 | stores the explicit expression as base with counter 0 |
| PrimitiveEnumMacro.NewEnumDefinition | primitive_enum_macro/src/lib.rs:82-120 | the imperative loop returns exactly the result of the definition pass |
| PrimitiveEnumMacro.BuildSucceedsIff | primitive_enum_macro/src/lib.rs:82-120 | construction succeeds iff the item is an enum with a fixed-width repr, marker arguments parse, at most one unknown variant and distinct normal names |
| PrimitiveEnumMacro.BuildResult | primitive_enum_macro/src/lib.rs:82-141 | a built definition has the normal variants in order with distinct names, the sequencer's expressions for them, and the first unknown variant |
| PrimitiveEnumMacro.InlineArms | primitive_enum_macro/src/lib.rs:176-186 | one arm per normal variant, in order, carrying its expression inline |
| PrimitiveEnumMacro.Derive | primitive_enum_macro/src/lib.rs:174-202 | the arm loop produces exactly the specified arms and fallback |
| PrimitiveEnumMacro.SynthesizedWellFormed | primitive_enum_macro/src/lib.rs:174-202 | the generated table names each normal variant once and each key denotes that variant's expression |
| PrimitiveEnumMacro.SynthesizedRoundTrip | primitive_enum_macro/src/lib.rs:205-222 | `into`/`try_into` of a normal variant give its expression's value; `from` of it gives the variant back iff no earlier variant has the same value |
| PrimitiveEnumMacro.SynthesizedFrom | primitive_enum_macro/src/lib.rs:188-222 | `from` gives the first variant with that value, else the unknown variant wrapping it, else panics (`try_from`: `Err`); its result converts back |
| PrimitiveEnumMacro.NumberConvertClassified | primitive_enum/tests/test.rs:4-14 | the test enum has normal variants Zero..Four without explicit discriminants and one unknown variant |
| PrimitiveEnumMacro.NumberConvertBuilt | primitive_enum/tests/test.rs:4-14 | the test enum builds with the literals 0..4 and `Unknown` as the unknown variant |
| PrimitiveEnumMacro.NumberConvertExample | primitive_enum/tests/test.rs:28-31 | `Zero` converts to 0; an unclaimed integer such as 7 becomes `Unknown(7)` |
| PrimitiveEnumMacro.TenElevenCollide | primitive_enum_macro/src/discriminant.rs:41-62 | in the arm table built for `Ten = 10` followed by `Eleven`, `Eleven`'s key is `10 + 0` with value 10, and 10 leads back to `Ten` (the emitted pattern does not compile; see Left out) |
| Generations.SameWithoutExplicit | zhi_enum_derive/src/discriminant.rs:70-79 | without explicit discriminants both generations give the i-th variant the value i |
| Generations.ExplicitShift | zhi_enum_derive/src/discriminant.rs:81-107 | after an explicit `e` both give `e` itself the same value, and every later implicit variant is one higher in the newer generation |
| Generations.ReprSupport | zhi_enum_derive/src/discriminant.rs:49-61 | the newer generation accepts what the older does plus isize/usize; both reject everything else with the same error |

## Left out

- PrimitiveEnumMacro.Synthesize: the legality of `match` patterns is not modelled. The older generation writes each expression inline as a `from`/`try_from` pattern. `base + k`, which every implicit variant after an explicit one gets, is not a legal pattern. Neither is an explicit expression other than a literal, a path or a negated literal. For such enums the emitted `from`/`try_from` do not compile, while the model still gives the arm table a meaning.
- PrimitiveEnumMacro.TenElevenCollide: it describes the arm table's meaning for an enum whose emitted `from` does not compile, for the reason in the previous line.
- ZhiDiscriminant.ToExprValue: evaluates the `Add` node with the base as one operand, as intended. The emitted tokens re-associate a shift base (`ZhiDiscriminant.ReparseMeaning`, under Findings).
- ZhiEnumDerive.Hoist: stores the intended `ToExpr` tree in the constants, not the re-parsed `Reparse` tree. The same holds for ZhiEnumDerive.HoistSound, ZhiEnumDerive.SynthesizedWellFormed, ZhiEnumDerive.SynthesizedRoundTrip and ZhiEnumDerive.SynthesizedFrom. They describe the corrected program: for the input under Findings, the emitted `into(B)` is 32, not 17.
- ZhiDiscriminant.ExplicitThenImplicit: the values e+1, e+2, ... are those of the intended trees. A base whose top operator binds more loosely than `+` is re-associated by the emitted code.
- Generations.ExplicitShift: compares the intended trees of both generations, not the re-parsed tokens.
- ZhiDiscriminant.Reparse: of the operators that bind more loosely than `+`, only `<<` by a literal amount is modelled. Bases built with `>>`, `&`, `^`, `|` or a computed shift are `Opaque`, and their re-association is not captured.
- PrimitiveDiscriminant.NextStep: splices `#expr + #literal` the same way. A shift base is re-associated there too; in that generation such an enum's `from` does not compile anyway.
- Token streams, spans, `quote!`/`syn` parsing and the text of error messages are not modelled. Errors are a `BuildError` value naming the cause.
- Only the attribute paths and arguments the macros inspect are modelled: an identifier argument, or anything else.
- The range check of the generated `const`s and arms against the repr type is left out. That check is rustc's type checking of the emitted code.
- The unreachable-pattern lint and rustc's rejection of enums whose discriminants collide are left out. The conversions are modelled over any values.
- `ZhiDiscriminant.Generator.Reset`: the i64 overflow of `v + 1` after folding `i64::MAX` is not modelled, because counters are unbounded. The same holds for `v += 1` in both sequencers.
- The `(signed, size)` pair computed by the older `Discriminant::new` is never used by the code and is not modelled.
- The fields of the unknown variant (`Unknown(u8)`) are not checked by the macros and are not modelled.
- The derived `Debug` impls, `Parse for EnumDefinition` and the runtime crates (`UnknownVariantError` is an empty datatype) are not modelled.
- The `into_<repr>`/`try_into_<repr>` helper methods only call `Into`/`TryInto` and share their model.

## Findings

| source | as written | input that shows it | evidently intended | confidence | as-written member | corrected member |
|---|---|---|---|---|---|---|
| zhi_enum_derive/src/discriminant.rs:29-35 | `to_expr` splices `#base + #literal` with no parentheses, so a base whose top operator binds more loosely than `+` takes the literal into its right operand | `#[repr(u8)] enum E { A = 1 << 4, B }`: `B` is emitted as `1 << 4 + 1_u8`, which is 32 | `(1 << 4) + 1`, which is 17: the base's value plus the counter | not executed | ZhiDiscriminant.ShiftBaseExample | ZhiDiscriminant.ToExprValue |
