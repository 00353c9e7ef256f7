/**
 * How the two generations of the discriminant sequencer relate: they number
 * enums without explicit discriminants alike, they part after an explicit
 * one (the newer continues one higher), and the newer accepts the
 * platform-sized reprs the older rejects.
 */
module Generations {
  import opened Wrappers
  import opened EnumInput
  import opened Definition
  import Z = ZhiDiscriminant
  import P = PrimitiveDiscriminant

  /** Without explicit discriminants both generations give the i-th variant
      the value i. */
  lemma SameWithoutExplicit(computable: bool, env: Env, n: nat)
    ensures var zs := Resolve(Z.ZhiSequencer(computable), Z.Fresh, Implicit(n)).0;
      var ps := Resolve(P.PrimitiveSequencer(), P.Fresh, Implicit(n)).0;
      && |zs| == |ps| == n
      && forall i :: 0 <= i < n ==> Z.Value(env, zs[i]) == Eval(env, ps[i]) == i
  {
    Z.DefaultNumbering(computable, env, n);
    P.DefaultNumbering(env, n);
  }

  /** After an explicit discriminant `e`, from any prior state, both give `e`
      itself the same value, and every implicit variant after it is one
      higher in the newer generation than in the older. */
  lemma ExplicitShift(computable: bool, env: Env, zs: Z.GenState, ps: P.SeqState, e: Expr, n: nat)
    ensures var zds := Resolve(Z.ZhiSequencer(computable), zs, [Some(e)] + Implicit(n)).0;
      var pds := Resolve(P.PrimitiveSequencer(), ps, [Some(e)] + Implicit(n)).0;
      && |zds| == |pds| == n + 1
      && Z.Value(env, zds[0]) == Eval(env, pds[0]) == Eval(env, e)
      && forall j :: 1 <= j <= n ==> Z.Value(env, zds[j]) == Eval(env, pds[j]) + 1
  {
    Z.ExplicitThenImplicit(computable, env, zs, e, n);
    P.ExplicitThenImplicit(env, ps, e, n);
  }

  /** The newer generation accepts exactly what the older one does plus
      `isize` and `usize`; what both reject they reject with the same error. */
  lemma ReprSupport(repr: string)
    ensures Z.ClassifyRepr(repr).Ok? <==> P.CheckRepr(repr).Ok? || repr in {"isize", "usize"}
    ensures Z.ClassifyRepr(repr).Err? ==> P.CheckRepr(repr).Err? && Z.ClassifyRepr(repr).error == P.CheckRepr(repr).error
  {
    Z.ClassifyReprMeaning(repr);
    P.CheckReprMeaning(repr);
  }
}
