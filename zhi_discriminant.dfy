/**
 * The newer generation's discriminant sequencer (`Generator`) and the
 * discriminants it hands out (`Discriminant`). An explicit integer literal is
 * folded when the repr is computable; anything else becomes the base of the
 * following implicit discriminants.
 */
module ZhiDiscriminant {
  import opened Wrappers
  import opened EnumInput
  import opened Definition

  const I64Min: int := -0x8000_0000_0000_0000
  const I64Max: int := 0x7FFF_FFFF_FFFF_FFFF

  /** A discriminant: the literal `v` when there is no base, otherwise the
      base expression plus `v`. */
  datatype Discriminant = Discriminant(v: nat, base: Option<Expr>)
  {
    predicate HaveBase()
    {
      base.Some?
    }

    /** The expression emitted for the discriminant. */
    function ToExpr(): Expr
    {
      match base
      case None => Lit(v)
      case Some(b) => if v == 0 then b else Add(b, v)
    }
  }

  /** The integer a discriminant denotes. */
  function Value(env: Env, d: Discriminant): int
  {
    if d.base.None? then d.v else Eval(env, d.base.value) + d.v
  }

  /** The emitted expression denotes the discriminant's value, and a
      discriminant without a base is emitted as the plain literal. */
  lemma ToExprValue(env: Env, d: Discriminant)
    ensures Eval(env, d.ToExpr()) == Value(env, d)
    ensures !d.HaveBase() ==> d.ToExpr() == Lit(d.v)
  {
  }

  /** The tree rustc parses from the tokens `#base + #literal`, which
      `to_expr` splices without parentheses: `+` binds more tightly than
      `<<`, so a shift absorbs the literal into its amount. */
  function SpliceAdd(base: Expr, k: nat): Expr
  {
    match base
    case Shl(l, n) => Shl(l, n + k)
    case _ => Add(base, k)
  }

  /** The discriminant's expression as the generated code reads it: what
      `to_expr` emits, re-parsed from its tokens. */
  function Reparse(d: Discriminant): Expr
  {
    match d.base
    case None => Lit(d.v)
    case Some(b) => if d.v == 0 then b else SpliceAdd(b, d.v)
  }

  /** The re-parsed expression is the intended `ToExpr` tree exactly when the
      literal is not appended to a shift; otherwise the literal is added to
      the shift amount instead of to the shifted value. */
  lemma ReparseMeaning(env: Env, d: Discriminant)
    ensures Reparse(d) == d.ToExpr() <==> !(d.base.Some? && d.v > 0 && d.base.value.Shl?)
    ensures Reparse(d) == d.ToExpr() ==> Eval(env, Reparse(d)) == Value(env, d)
    ensures d.base.Some? && d.v > 0 && d.base.value.Shl? ==>
      var b := d.base.value;
      && Eval(env, Reparse(d)) == Eval(env, b.lhs) * Pow2(b.amount + d.v)
      && Value(env, d) == Eval(env, b.lhs) * Pow2(b.amount) + d.v
  {
    ToExprValue(env, d);
  }

  /** `#[repr(u8)] enum E { A = 1 << 4, B }`: `B`'s discriminant is base
      `1 << 4` plus one, 17, but the emitted `1 << 4 + 1_u8` is 32. */
  lemma ShiftBaseExample(env: Env)
    ensures var ds := Resolve(ZhiSequencer(true), Fresh, [Some(Shl(Lit(1), 4)), None]).0;
      && ds[1] == Discriminant(1, Some(Shl(Lit(1), 4)))
      && Value(env, ds[1]) == 17
      && Reparse(ds[1]) == Shl(Lit(1), 5) && Eval(env, Reparse(ds[1])) == 32
  {
    var sq := ZhiSequencer(true);
    var es: seq<Option<Expr>> := [Some(Shl(Lit(1), 4)), None];
    var s1 := GenState(Some(Shl(Lit(1), 4)), 1);
    assert Resolve(sq, s1, es[1..]).0 == [Discriminant(1, Some(Shl(Lit(1), 4)))];
    assert Pow2(4) == 16 && Pow2(5) == 32;
  }

  /** `Generator::new`'s table: `Ok(computable)` for a supported repr. */
  function ClassifyRepr(repr: string): Result<bool, BuildError>
  {
    match repr
    case "i8" => Ok(true)
    case "i16" => Ok(true)
    case "i32" => Ok(true)
    case "i64" => Ok(true)
    case "u8" => Ok(true)
    case "u16" => Ok(true)
    case "u32" => Ok(true)
    case "i128" => Ok(false)
    case "u64" => Ok(false)
    case "u128" => Ok(false)
    case "isize" => Ok(false)
    case "usize" => Ok(false)
    case "C" => Err(ReprCNotSupported)
    case _ => Err(UnexpectedRepr(repr))
  }

  /** The supported reprs are the Rust integer types; a fixed-width one is
      computable exactly when its whole range fits in `i64`, the type literals
      are parsed as; the platform-sized ones are never computable. */
  lemma ClassifyReprMeaning(repr: string)
    ensures ClassifyRepr(repr).Ok? <==> IntBounds(repr).Some? || repr in {"isize", "usize"}
    ensures IntBounds(repr).Some? ==>
      ClassifyRepr(repr) == Ok(I64Min <= IntBounds(repr).value.0 && IntBounds(repr).value.1 <= I64Max)
    ensures repr in {"isize", "usize"} ==> ClassifyRepr(repr) == Ok(false)
    ensures repr == "C" ==> ClassifyRepr(repr) == Err(ReprCNotSupported)
  {
  }

  /** The sequencer's mutable part. */
  datatype GenState = GenState(base: Option<Expr>, v: nat)

  const Fresh: GenState := GenState(None, 0)

  /** `Generator::next`: the current base and counter, then one step on. */
  function NextStep(s: GenState): (Discriminant, GenState)
  {
    (Discriminant(s.v, s.base), GenState(s.base, s.v + 1))
  }

  /** True when `reset` folds the expression: a computable repr and an
      integer literal that parses as an `i64`. */
  predicate Folds(computable: bool, e: Expr)
  {
    computable && e.Lit? && e.value <= I64Max
  }

  /** `Generator::reset`: it does not look at the previous state. */
  function ResetStep(computable: bool, e: Expr): (Discriminant, GenState)
  {
    if Folds(computable, e) then (Discriminant(e.value, None), GenState(None, e.value + 1))
    else (Discriminant(0, Some(e)), GenState(Some(e), 1))
  }

  function ZhiSequencer(computable: bool): Sequencer<GenState, Discriminant>
  {
    Sequencer(NextStep, (s: GenState, e: Expr) => ResetStep(computable, e))
  }

  /** Successive `next` calls keep the base and count up from `v` by one. */
  lemma {:induction false} NextRun(computable: bool, s: GenState, n: nat)
    ensures var (ds, s') := Resolve(ZhiSequencer(computable), s, Implicit(n));
      && s' == GenState(s.base, s.v + n)
      && forall i :: 0 <= i < n ==> ds[i] == Discriminant(s.v + i, s.base)
    decreases n
  {
    if n > 0 {
      assert Implicit(n)[0] == None && Implicit(n)[1..] == Implicit(n - 1);
      NextRun(computable, GenState(s.base, s.v + 1), n - 1);
    }
  }

  /** Without explicit discriminants the variants are numbered 0, 1, 2, ... */
  lemma DefaultNumbering(computable: bool, env: Env, n: nat)
    ensures var ds := Resolve(ZhiSequencer(computable), Fresh, Implicit(n)).0;
      forall i :: 0 <= i < n ==> !ds[i].HaveBase() && Value(env, ds[i]) == i
  {
    NextRun(computable, Fresh, n);
  }

  /** An explicit discriminant `e` followed by `n` implicit ones yields the
      values e, e+1, ..., e+n: folded to base-less literals when `reset`
      folds, and as `e + j` over the base `e` otherwise. */
  lemma ExplicitThenImplicit(computable: bool, env: Env, s: GenState, e: Expr, n: nat)
    ensures var ds := Resolve(ZhiSequencer(computable), s, [Some(e)] + Implicit(n)).0;
      && |ds| == n + 1
      && (forall j :: 0 <= j <= n ==> Value(env, ds[j]) == Eval(env, e) + j)
      && (Folds(computable, e) ==> forall j :: 0 <= j <= n ==> !ds[j].HaveBase())
      && (!Folds(computable, e) ==> forall j :: 0 <= j <= n ==> ds[j].base == Some(e))
  {
    var sq := ZhiSequencer(computable);
    var es := [Some(e)] + Implicit(n);
    assert es[0] == Some(e) && es[1..] == Implicit(n);
    var (d0, s1) := ResetStep(computable, e);
    NextRun(computable, s1, n);
  }

  /** `reset` discards the previous state: what follows an explicit
      discriminant does not depend on what came before it. */
  lemma ResetForgetsState(computable: bool, s1: GenState, s2: GenState, e: Expr, es: seq<Option<Expr>>)
    ensures Resolve(ZhiSequencer(computable), s1, [Some(e)] + es) == Resolve(ZhiSequencer(computable), s2, [Some(e)] + es)
  {
    assert ([Some(e)] + es)[1..] == es;
  }

  /** The sequencer object; `next` and `reset` update `base` and `v` in place. */
  class Generator {
    const repr: string
    const computable: bool
    var base: Option<Expr>
    var v: nat

    function State(): GenState
      reads this
    {
      GenState(base, v)
    }

    constructor (repr: string, computable: bool)
      requires ClassifyRepr(repr) == Ok(computable)
      ensures this.repr == repr && this.computable == computable && State() == Fresh
    {
      this.repr := repr;
      this.computable := computable;
      base := None;
      v := 0;
    }

    /** `Generator::new`: the repr's error, or a fresh generator. */
    static method New(repr: string) returns (r: Result<Generator, BuildError>)
      ensures r.Err? <==> ClassifyRepr(repr).Err?
      ensures r.Err? ==> r.error == ClassifyRepr(repr).error
      ensures r.Ok? ==> fresh(r.value) && r.value.repr == repr
      ensures r.Ok? ==> r.value.computable == ClassifyRepr(repr).value && r.value.State() == Fresh
    {
      var c := ClassifyRepr(repr);
      if c.Err? {
        return Err(c.error);
      }
      var g := new Generator(repr, c.value);
      return Ok(g);
    }

    method Next() returns (d: Discriminant)
      modifies this
      ensures (d, State()) == NextStep(old(State()))
    {
      d := Discriminant(v, base);
      v := v + 1;
    }

    method Reset(e: Expr) returns (d: Discriminant)
      modifies this
      ensures (d, State()) == ResetStep(computable, e)
    {
      if computable && e.Lit? && e.value <= I64Max {
        base := None;
        v := e.value + 1;
        return Discriminant(e.value, None);
      }
      base := Some(e);
      v := 1;
      d := Discriminant(0, base);
    }
  }
}
