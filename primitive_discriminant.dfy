/**
 * The older generation's discriminant sequencer (`Discriminant` in
 * primitive_enum_macro). It never folds literals: `reset` makes the explicit
 * expression the base with counter 0, so the implicit variant right after an
 * explicit one gets `base + 0`, the same value as the explicit one.
 */
module PrimitiveDiscriminant {
  import opened Wrappers
  import opened EnumInput
  import opened Definition

  /** `Discriminant::new`'s check: the fixed-width integer types only. */
  function CheckRepr(repr: string): Result<(), BuildError>
  {
    match repr
    case "i8" => Ok(())
    case "i16" => Ok(())
    case "i32" => Ok(())
    case "i64" => Ok(())
    case "i128" => Ok(())
    case "u8" => Ok(())
    case "u16" => Ok(())
    case "u32" => Ok(())
    case "u64" => Ok(())
    case "u128" => Ok(())
    case "C" => Err(ReprCNotSupported)
    case _ => Err(UnexpectedRepr(repr))
  }

  /** Accepted are exactly the fixed-width integer types; `C` has its own
      error and the platform-sized types are rejected like any other name. */
  lemma CheckReprMeaning(repr: string)
    ensures CheckRepr(repr).Ok? <==> IntBounds(repr).Some?
    ensures repr == "C" ==> CheckRepr(repr) == Err(ReprCNotSupported)
    ensures repr in {"isize", "usize"} ==> CheckRepr(repr) == Err(UnexpectedRepr(repr))
  {
  }

  /** The sequencer's mutable part. */
  datatype SeqState = SeqState(base: Option<Expr>, v: nat)

  const Fresh: SeqState := SeqState(None, 0)

  /** The expression for counter `k` over an optional base. */
  function Offset(base: Option<Expr>, k: nat): Expr
  {
    match base
    case None => Lit(k)
    case Some(b) => Add(b, k)
  }

  /** `Discriminant::next`: the literal, or `base + literal` (even for 0). */
  function NextStep(s: SeqState): (Expr, SeqState)
  {
    (Offset(s.base, s.v), SeqState(s.base, s.v + 1))
  }

  /** `Discriminant::reset` together with `parse_variant_normal`, which gives
      the explicit variant its expression verbatim. */
  function ResetStep(e: Expr): (Expr, SeqState)
  {
    (e, SeqState(Some(e), 0))
  }

  function PrimitiveSequencer(): Sequencer<SeqState, Expr>
  {
    Sequencer(NextStep, (s: SeqState, e: Expr) => ResetStep(e))
  }

  /** Successive `next` calls keep the base and count up from `v` by one. */
  lemma {:induction false} NextRun(s: SeqState, n: nat)
    ensures var (es, s') := Resolve(PrimitiveSequencer(), s, Implicit(n));
      && s' == SeqState(s.base, s.v + n)
      && forall i :: 0 <= i < n ==> es[i] == Offset(s.base, s.v + i)
    decreases n
  {
    if n > 0 {
      assert Implicit(n)[0] == None && Implicit(n)[1..] == Implicit(n - 1);
      NextRun(SeqState(s.base, s.v + 1), n - 1);
    }
  }

  /** Without explicit discriminants the variants are numbered 0, 1, 2, ... */
  lemma DefaultNumbering(env: Env, n: nat)
    ensures var es := Resolve(PrimitiveSequencer(), Fresh, Implicit(n)).0;
      forall i :: 0 <= i < n ==> es[i] == Lit(i) && Eval(env, es[i]) == i
  {
    NextRun(Fresh, n);
  }

  /** An explicit discriminant `e` followed by `n` implicit ones yields `e`,
      then `e + 0`, `e + 1`, ..., `e + (n-1)`: every later value is one less
      than its position after `e`, and the first repeats `e`'s value. */
  lemma ExplicitThenImplicit(env: Env, s: SeqState, e: Expr, n: nat)
    ensures var es := Resolve(PrimitiveSequencer(), s, [Some(e)] + Implicit(n)).0;
      && |es| == n + 1
      && es[0] == e
      && (forall j :: 1 <= j <= n ==> es[j] == Add(e, j - 1) && Eval(env, es[j]) == Eval(env, e) + j - 1)
      && (n >= 1 ==> Eval(env, es[1]) == Eval(env, es[0]))
  {
    var es := [Some(e)] + Implicit(n);
    assert es[0] == Some(e) && es[1..] == Implicit(n);
    NextRun(SeqState(Some(e), 0), n);
  }

  /** The sequencer object; `next` and `reset` update `base` and `v` in place. */
  class Discriminant {
    const repr: string
    var base: Option<Expr>
    var v: nat

    function State(): SeqState
      reads this
    {
      SeqState(base, v)
    }

    constructor (repr: string)
      requires CheckRepr(repr).Ok?
      ensures this.repr == repr && State() == Fresh
    {
      this.repr := repr;
      base := None;
      v := 0;
    }

    /** `Discriminant::new`: the repr's error, or a fresh sequencer. */
    static method New(repr: string) returns (r: Result<Discriminant, BuildError>)
      ensures r.Err? <==> CheckRepr(repr).Err?
      ensures r.Err? ==> r.error == CheckRepr(repr).error
      ensures r.Ok? ==> fresh(r.value) && r.value.repr == repr && r.value.State() == Fresh
    {
      var c := CheckRepr(repr);
      if c.Err? {
        return Err(c.error);
      }
      var d := new Discriminant(repr);
      return Ok(d);
    }

    method Next() returns (e: Expr)
      modifies this
      ensures (e, State()) == NextStep(old(State()))
    {
      var k := v;
      v := v + 1;
      match base
      case None => e := Lit(k);
      case Some(b) => e := Add(b, k);
    }

    method Reset(e: Expr)
      modifies this
      ensures State() == ResetStep(e).1
    {
      base := Some(e);
      v := 0;
    }
  }
}
