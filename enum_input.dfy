/**
 * What the derive macros read from the annotated item: the enum's attributes,
 * its variants and their explicit discriminant expressions. Token parsing is
 * abstracted away; an attribute is its path and the shape of its arguments.
 */
module EnumInput {
  import opened Wrappers

  /** A discriminant expression, as a syntax tree. `Lit` is an integer
      literal token (never negative: `-1` is a unary expression), `Shl` a
      left shift by a literal amount, `Opaque` any other expression (a path,
      another binary expression, a negated literal, ...) whose value comes
      from the environment, and `Add` the `base + literal` node the
      sequencers build, with `base` as one operand. */
  datatype Expr =
    | Lit(value: nat)
    | Opaque(text: string)
    | Shl(lhs: Expr, amount: nat)
    | Add(base: Expr, offset: nat)

  /** Values of the expressions the macros cannot evaluate themselves. */
  type Env = string -> int

  function Pow2(n: nat): (r: nat)
    ensures r >= 1
  {
    if n == 0 then 1 else 2 * Pow2(n - 1)
  }

  /** What a syntax tree computes. The generated code uses a plain `+` and
      `<<`, so no wrap-around is modelled. */
  function Eval(env: Env, e: Expr): int
  {
    match e
    case Lit(k) => k
    case Opaque(t) => env(t)
    case Shl(l, n) => Eval(env, l) * Pow2(n)
    case Add(b, k) => Eval(env, b) + k
  }

  /** The arguments of an attribute: a single identifier `#[x(ident)]`, or
      anything else (several tokens, a literal, no parentheses at all). */
  datatype AttrArgs = IdentArg(ident: string) | OtherArgs

  /** An attribute `#[path(args)]`; `path` holds the segments of its path. */
  datatype Attribute = Attribute(path: seq<string>, args: AttrArgs)

  datatype VariantDecl = VariantDecl(name: string, attrs: seq<Attribute>, discriminant: Option<Expr>)

  datatype Data = EnumData(variants: seq<VariantDecl>) | StructData | UnionData

  datatype DeriveInput = DeriveInput(name: string, attrs: seq<Attribute>, data: Data)

  /** The ways building an enum definition can fail, each the error the macro
      turns into a compile error. */
  datatype BuildError =
    | NotAnEnum                       // "require enum"
    | MissingRepr                     // no `#[repr(...)]` attribute
    | MalformedReprArgs               // `repr` arguments are not one identifier
    | ReprCNotSupported               // `#[repr(C)]`
    | UnexpectedRepr(repr: string)    // any other unsupported repr
    | MalformedVariantArgs(variant: string) // marker attribute whose argument is not `unknown`
    | MultipleUnknown(variant: string)      // a second unknown variant
    | DuplicateVariant(variant: string)     // a repeated normal-variant name

  /** The range of each fixed-width Rust integer type; `isize` and `usize`
      depend on the platform and have none here. */
  function IntBounds(repr: string): Option<(int, int)>
  {
    match repr
    case "i8" => Some((-0x80, 0x7F))
    case "i16" => Some((-0x8000, 0x7FFF))
    case "i32" => Some((-0x8000_0000, 0x7FFF_FFFF))
    case "i64" => Some((-0x8000_0000_0000_0000, 0x7FFF_FFFF_FFFF_FFFF))
    case "i128" => Some((-0x8000_0000_0000_0000_0000_0000_0000_0000, 0x7FFF_FFFF_FFFF_FFFF_FFFF_FFFF_FFFF_FFFF))
    case "u8" => Some((0, 0xFF))
    case "u16" => Some((0, 0xFFFF))
    case "u32" => Some((0, 0xFFFF_FFFF))
    case "u64" => Some((0, 0xFFFF_FFFF_FFFF_FFFF))
    case "u128" => Some((0, 0xFFFF_FFFF_FFFF_FFFF_FFFF_FFFF_FFFF_FFFF))
    case _ => None
  }

  /** True when the attribute's path is the single identifier `name`
      (`attr.path.is_ident(name)`, or `get_ident()` equal to `name`). */
  predicate IsIdent(a: Attribute, name: string)
  {
    a.path == [name]
  }

  /** Index of the first attribute whose path is the identifier `name`. */
  function FirstAttr(attrs: seq<Attribute>, name: string): (r: Option<nat>)
    ensures r.Some? ==> r.value < |attrs| && IsIdent(attrs[r.value], name)
    ensures r.Some? ==> forall j :: 0 <= j < r.value ==> !IsIdent(attrs[j], name)
    ensures r.None? ==> forall j :: 0 <= j < |attrs| ==> !IsIdent(attrs[j], name)
  {
    if |attrs| == 0 then None
    else if IsIdent(attrs[0], name) then Some(0)
    else match FirstAttr(attrs[1..], name)
      case None => None
      case Some(k) => Some(k + 1)
  }

  /** `EnumDefinition::parse_repr`: the first `repr` attribute decides; its
      argument must be a single identifier. */
  function ParseRepr(attrs: seq<Attribute>): Result<string, BuildError>
  {
    match FirstAttr(attrs, "repr")
    case None => Err(MissingRepr)
    case Some(i) =>
      match attrs[i].args
      case IdentArg(repr) => Ok(repr)
      case OtherArgs => Err(MalformedReprArgs)
  }

  datatype Kind = UnknownKind | NormalKind

  /** `EnumDefinition::parse_variant`'s classification: the first attribute
      named `marker` decides. Its argument must be `unknown` (the only one the
      attribute parser accepts), and then the variant is the unknown one;
      attributes with other paths are ignored. */
  function KindOf(v: VariantDecl, marker: string): Result<Kind, BuildError>
  {
    match FirstAttr(v.attrs, marker)
    case None => Ok(NormalKind)
    case Some(i) =>
      if v.attrs[i].args == IdentArg("unknown") then Ok(UnknownKind)
      else Err(MalformedVariantArgs(v.name))
  }

  /** A variant is classified unknown exactly when some attribute named
      `marker` carries the argument `unknown` and no earlier one named
      `marker` carries anything else. */
  lemma {:induction false} KindOfUnknown(v: VariantDecl, marker: string)
    ensures KindOf(v, marker) == Ok(UnknownKind) <==>
      exists i :: 0 <= i < |v.attrs| && v.attrs[i] == Attribute([marker], IdentArg("unknown"))
        && forall j :: 0 <= j < i ==> !IsIdent(v.attrs[j], marker)
  {
    var f := FirstAttr(v.attrs, marker);
    if KindOf(v, marker) == Ok(UnknownKind) {
      var i := f.value;
      assert v.attrs[i] == Attribute([marker], IdentArg("unknown"));
    }
    if exists i :: 0 <= i < |v.attrs| && v.attrs[i] == Attribute([marker], IdentArg("unknown"))
        && forall j :: 0 <= j < i ==> !IsIdent(v.attrs[j], marker) {
      var i :| 0 <= i < |v.attrs| && v.attrs[i] == Attribute([marker], IdentArg("unknown"))
        && forall j :: 0 <= j < i ==> !IsIdent(v.attrs[j], marker);
      assert IsIdent(v.attrs[i], marker);
      assert f.Some? && f.value == i;
    }
  }
}
