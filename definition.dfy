/**
 * `EnumDefinition::new` and `parse_variant*`, common to both generations: one
 * left-to-right pass over the variants that classifies each one, rejects a
 * second unknown variant and a repeated normal name, and asks the
 * discriminant sequencer for a value for each normal variant only.
 *
 * The two generations differ only in their sequencer, so the pass is stated
 * once here over a `Sequencer`: the pair of step functions `next` (a variant
 * without explicit discriminant) and `reset` (a variant with one).
 */
module Definition {
  import opened Wrappers
  import opened EnumInput

  datatype Sequencer<!S, D> = Sequencer(next: S -> (D, S), reset: (S, Expr) -> (D, S))

  datatype Normal<D> = Normal(name: string, discriminant: D)

  /** The state of the pass after some variants: the sequencer's state, the
      unknown variant seen so far, the normal variants in declaration order. */
  datatype Acc<S, D> = Acc(state: S, unknown: Option<string>, normals: seq<Normal<D>>)

  /** The finished definition handed to the conversion synthesis. */
  datatype EnumDefinition<D> = EnumDefinition(name: string, repr: string, unknown: Option<string>, normals: seq<Normal<D>>)

  /** `parse_variant_normal`: `reset` for an explicit discriminant, `next` otherwise. */
  function Assign<S, D>(sq: Sequencer<S, D>, s: S, explicit: Option<Expr>): (D, S)
  {
    match explicit
    case None => sq.next(s)
    case Some(e) => sq.reset(s, e)
  }

  /** The discriminants a sequencer hands out for a run of normal variants
      with the given explicit discriminants, and its final state. */
  function Resolve<S, D>(sq: Sequencer<S, D>, s: S, es: seq<Option<Expr>>): (r: (seq<D>, S))
    ensures |r.0| == |es|
    decreases |es|
  {
    if |es| == 0 then ([], s)
    else
      var (d, s1) := Assign(sq, s, es[0]);
      var (ds, s2) := Resolve(sq, s1, es[1..]);
      ([d] + ds, s2)
  }

  /** The explicit discriminants of `n` variants that have none. */
  function Implicit(n: nat): (r: seq<Option<Expr>>)
    ensures |r| == n && forall i :: 0 <= i < n ==> r[i] == None
  {
    seq(n, _ => None)
  }

  function Names<D>(ns: seq<Normal<D>>): (r: seq<string>)
    ensures |r| == |ns| && forall i :: 0 <= i < |ns| ==> r[i] == ns[i].name
  {
    seq(|ns|, i requires 0 <= i < |ns| => ns[i].name)
  }

  function Discriminants<D>(ns: seq<Normal<D>>): (r: seq<D>)
    ensures |r| == |ns| && forall i :: 0 <= i < |ns| ==> r[i] == ns[i].discriminant
  {
    seq(|ns|, i requires 0 <= i < |ns| => ns[i].discriminant)
  }

  /** One iteration of the loop in `EnumDefinition::new`. */
  function Step<S, D>(marker: string, sq: Sequencer<S, D>, acc: Acc<S, D>, v: VariantDecl): Result<Acc<S, D>, BuildError>
  {
    match KindOf(v, marker)
    case Err(e) => Err(e)
    case Ok(UnknownKind) =>
      if acc.unknown.Some? then Err(MultipleUnknown(v.name))
      else Ok(acc.(unknown := Some(v.name)))
    case Ok(NormalKind) =>
      var (d, s) := Assign(sq, acc.state, v.discriminant);
      if v.name in Names(acc.normals) then Err(DuplicateVariant(v.name))
      else Ok(Acc(s, acc.unknown, acc.normals + [Normal(v.name, d)]))
  }

  /** The whole loop: variants in declaration order, the first error ends it. */
  function Walk<S, D>(marker: string, sq: Sequencer<S, D>, acc: Acc<S, D>, vs: seq<VariantDecl>): Result<Acc<S, D>, BuildError>
    decreases |vs|
  {
    if |vs| == 0 then Ok(acc)
    else
      match Step(marker, sq, acc, vs[0])
      case Err(e) => Err(e)
      case Ok(a) => Walk(marker, sq, a, vs[1..])
  }

  // Reference definitions, computed from the declarations alone.

  predicate AllClassify(vs: seq<VariantDecl>, marker: string)
  {
    forall i :: 0 <= i < |vs| ==> KindOf(vs[i], marker).Ok?
  }

  function UnknownCount(vs: seq<VariantDecl>, marker: string): nat
  {
    if |vs| == 0 then 0
    else (if KindOf(vs[0], marker) == Ok(UnknownKind) then 1 else 0) + UnknownCount(vs[1..], marker)
  }

  function FirstUnknown(vs: seq<VariantDecl>, marker: string): Option<string>
  {
    if |vs| == 0 then None
    else if KindOf(vs[0], marker) == Ok(UnknownKind) then Some(vs[0].name)
    else FirstUnknown(vs[1..], marker)
  }

  /** Names of the variants classified normal, in declaration order. */
  function NormalNames(vs: seq<VariantDecl>, marker: string): seq<string>
  {
    if |vs| == 0 then []
    else (if KindOf(vs[0], marker) == Ok(NormalKind) then [vs[0].name] else []) + NormalNames(vs[1..], marker)
  }

  /** Explicit discriminants of the variants classified normal, in order. */
  function NormalExplicits(vs: seq<VariantDecl>, marker: string): seq<Option<Expr>>
  {
    if |vs| == 0 then []
    else (if KindOf(vs[0], marker) == Ok(NormalKind) then [vs[0].discriminant] else []) + NormalExplicits(vs[1..], marker)
  }

  predicate Distinct(s: seq<string>)
  {
    forall i, j :: 0 <= i < j < |s| ==> s[i] != s[j]
  }

  lemma DistinctExtend(a: seq<string>, x: string, b: seq<string>)
    ensures Distinct(a + ([x] + b)) <==> x !in a && Distinct(a + [x]) && Distinct((a + [x]) + b)
  {
    assert a + ([x] + b) == (a + [x]) + b;
    if Distinct((a + [x]) + b) {
      var ab := (a + [x]) + b;
      forall i, j | 0 <= i < j < |a + [x]| ensures (a + [x])[i] != (a + [x])[j] {
        assert (a + [x])[i] == ab[i] && (a + [x])[j] == ab[j];
      }
      forall k | 0 <= k < |a| ensures a[k] != x {
        assert ab[k] == a[k] && ab[|a|] == x;
      }
    }
  }

  /** Later variants are never examined once one fails, and a successful
      prefix hands its state on to the rest. */
  lemma {:induction false} WalkAppend<S, D>(marker: string, sq: Sequencer<S, D>, acc: Acc<S, D>, vs: seq<VariantDecl>, ws: seq<VariantDecl>)
    ensures Walk(marker, sq, acc, vs + ws) ==
      match Walk(marker, sq, acc, vs)
      case Err(e) => Err(e)
      case Ok(a) => Walk(marker, sq, a, ws)
    decreases |vs|
  {
    if |vs| == 0 {
      assert vs + ws == ws;
    } else {
      assert (vs + ws)[0] == vs[0];
      assert (vs + ws)[1..] == vs[1..] + ws;
      match Step(marker, sq, acc, vs[0])
      case Err(e) =>
      case Ok(a) => WalkAppend(marker, sq, a, vs[1..], ws);
    }
  }

  /** The errors one step reports: the variant's malformed marker argument,
      a second unknown variant, or a normal name already taken. */
  lemma StepError<S, D>(marker: string, sq: Sequencer<S, D>, acc: Acc<S, D>, v: VariantDecl)
    ensures KindOf(v, marker).Err? ==> Step(marker, sq, acc, v) == Err(MalformedVariantArgs(v.name))
    ensures KindOf(v, marker) == Ok(UnknownKind) ==>
      (Step(marker, sq, acc, v).Err? <==> acc.unknown.Some?)
      && (acc.unknown.Some? ==> Step(marker, sq, acc, v) == Err(MultipleUnknown(v.name)))
    ensures KindOf(v, marker) == Ok(NormalKind) ==>
      (Step(marker, sq, acc, v).Err? <==> v.name in Names(acc.normals))
      && (v.name in Names(acc.normals) ==> Step(marker, sq, acc, v) == Err(DuplicateVariant(v.name)))
  {
    if KindOf(v, marker).Err? {
      assert KindOf(v, marker) == Err(MalformedVariantArgs(v.name));
    }
  }

  /** A failing pass reports the error of the first variant whose step
      fails, every variant before it having been accepted. */
  lemma {:induction false} WalkFirstFailure<S, D>(marker: string, sq: Sequencer<S, D>, acc: Acc<S, D>, vs: seq<VariantDecl>)
    requires Walk(marker, sq, acc, vs).Err?
    ensures exists k :: (0 <= k < |vs| && Walk(marker, sq, acc, vs[..k]).Ok?
      && Step(marker, sq, Walk(marker, sq, acc, vs[..k]).value, vs[k]) == Err(Walk(marker, sq, acc, vs).error))
    decreases |vs|
  {
    assert vs[..0] == [];
    match Step(marker, sq, acc, vs[0])
    case Err(e) =>
      assert Walk(marker, sq, acc, vs[..0]) == Ok(acc);
    case Ok(a) =>
      var rest := vs[1..];
      WalkFirstFailure(marker, sq, a, rest);
      var k :| 0 <= k < |rest| && Walk(marker, sq, a, rest[..k]).Ok?
        && Step(marker, sq, Walk(marker, sq, a, rest[..k]).value, rest[k]) == Err(Walk(marker, sq, a, rest).error);
      var pre := vs[..k + 1];
      assert pre[0] == vs[0] && pre[1..] == rest[..k];
      assert Walk(marker, sq, acc, pre) == Walk(marker, sq, a, rest[..k]);
      assert vs[k + 1] == rest[k];
  }

  /** The pass succeeds exactly when every variant classifies, at most one is
      unknown, and the normal names are pairwise distinct. */
  lemma {:induction false} WalkSucceedsIff<S, D>(marker: string, sq: Sequencer<S, D>, acc: Acc<S, D>, vs: seq<VariantDecl>)
    requires Distinct(Names(acc.normals))
    ensures Walk(marker, sq, acc, vs).Ok? <==>
      AllClassify(vs, marker)
      && UnknownCount(vs, marker) + (if acc.unknown.Some? then 1 else 0) <= 1
      && Distinct(Names(acc.normals) + NormalNames(vs, marker))
    decreases |vs|
  {
    var n := Names(acc.normals);
    if |vs| == 0 {
      assert n + NormalNames(vs, marker) == n;
    } else {
      var v, rest := vs[0], vs[1..];
      assert AllClassify(vs, marker) <==> KindOf(v, marker).Ok? && AllClassify(rest, marker) by {
        if KindOf(v, marker).Ok? && AllClassify(rest, marker) {
          forall i | 0 <= i < |vs| ensures KindOf(vs[i], marker).Ok? {
            if i > 0 { assert vs[i] == rest[i - 1]; }
          }
        }
        if AllClassify(vs, marker) {
          forall i | 0 <= i < |rest| ensures KindOf(rest[i], marker).Ok? {
            assert rest[i] == vs[i + 1];
          }
        }
      }
      match KindOf(v, marker)
      case Err(e) =>
      case Ok(UnknownKind) =>
        assert NormalNames(vs, marker) == NormalNames(rest, marker);
        if acc.unknown.None? {
          WalkSucceedsIff(marker, sq, acc.(unknown := Some(v.name)), rest);
        }
      case Ok(NormalKind) =>
        var (d, s) := Assign(sq, acc.state, v.discriminant);
        assert NormalNames(vs, marker) == [v.name] + NormalNames(rest, marker);
        DistinctExtend(n, v.name, NormalNames(rest, marker));
        if v.name !in n {
          var normals' := acc.normals + [Normal(v.name, d)];
          assert Names(normals') == n + [v.name];
          WalkSucceedsIff(marker, sq, Acc(s, acc.unknown, normals'), rest);
        }
    }
  }

  /** A successful step on a normal variant: the sequencer is asked once and
      the variant is appended. */
  lemma StepNormal<S, D>(marker: string, sq: Sequencer<S, D>, acc: Acc<S, D>, v: VariantDecl)
    requires KindOf(v, marker) == Ok(NormalKind)
    requires Step(marker, sq, acc, v).Ok?
    ensures var ds := Assign(sq, acc.state, v.discriminant);
      Step(marker, sq, acc, v).value == Acc(ds.1, acc.unknown, acc.normals + [Normal(v.name, ds.0)])
  {
  }

  /** What a successful pass produces: the normal variants are the variants
      classified normal, in declaration order; their discriminants are what
      the sequencer hands out for the normal variants alone, so unknown
      variants never advance it; the unknown variant is the first one marked. */
  lemma {:induction false} WalkResult<S, D>(marker: string, sq: Sequencer<S, D>, acc: Acc<S, D>, vs: seq<VariantDecl>)
    requires Walk(marker, sq, acc, vs).Ok?
    ensures var a := Walk(marker, sq, acc, vs).value;
      && Names(a.normals) == Names(acc.normals) + NormalNames(vs, marker)
      && Discriminants(a.normals) == Discriminants(acc.normals) + Resolve(sq, acc.state, NormalExplicits(vs, marker)).0
      && a.state == Resolve(sq, acc.state, NormalExplicits(vs, marker)).1
      && a.unknown == (if acc.unknown.Some? then acc.unknown else FirstUnknown(vs, marker))
    decreases |vs|
  {
    if |vs| == 0 {
      assert Names(acc.normals) + [] == Names(acc.normals);
      assert Discriminants(acc.normals) + [] == Discriminants(acc.normals);
    } else {
      var v, rest := vs[0], vs[1..];
      var acc' := Step(marker, sq, acc, v).value;
      assert Walk(marker, sq, acc, vs) == Walk(marker, sq, acc', rest);
      WalkResult(marker, sq, acc', rest);
      if KindOf(v, marker) == Ok(UnknownKind) {
        assert acc' == acc.(unknown := Some(v.name));
        assert NormalExplicits(vs, marker) == NormalExplicits(rest, marker);
        assert NormalNames(vs, marker) == NormalNames(rest, marker);
      } else {
        NormalStepResult(marker, sq, acc, vs);
      }
    }
  }

  lemma NormalStepResult<S, D>(marker: string, sq: Sequencer<S, D>, acc: Acc<S, D>, vs: seq<VariantDecl>)
    requires |vs| > 0 && KindOf(vs[0], marker) == Ok(NormalKind)
    requires Step(marker, sq, acc, vs[0]).Ok?
    ensures var acc' := Step(marker, sq, acc, vs[0]).value;
      var v, rest := vs[0], vs[1..];
      && Names(acc'.normals) + NormalNames(rest, marker) == Names(acc.normals) + NormalNames(vs, marker)
      && Discriminants(acc'.normals) + Resolve(sq, acc'.state, NormalExplicits(rest, marker)).0
         == Discriminants(acc.normals) + Resolve(sq, acc.state, NormalExplicits(vs, marker)).0
      && Resolve(sq, acc'.state, NormalExplicits(rest, marker)).1 == Resolve(sq, acc.state, NormalExplicits(vs, marker)).1
      && FirstUnknown(vs, marker) == FirstUnknown(rest, marker)
      && acc'.unknown == acc.unknown
  {
    var v, rest := vs[0], vs[1..];
    StepNormal(marker, sq, acc, v);
    var ds := Assign(sq, acc.state, v.discriminant);
    var acc' := Step(marker, sq, acc, v).value;
    var es := NormalExplicits(vs, marker);
    assert es == [v.discriminant] + NormalExplicits(rest, marker);
    assert es[0] == v.discriminant && es[1..] == NormalExplicits(rest, marker);
    var tail := Resolve(sq, ds.1, NormalExplicits(rest, marker));
    assert Resolve(sq, acc.state, es) == ([ds.0] + tail.0, tail.1);
    assert Names(acc'.normals) == Names(acc.normals) + [v.name];
    assert Discriminants(acc'.normals) == Discriminants(acc.normals) + [ds.0];
    assert NormalNames(vs, marker) == [v.name] + NormalNames(rest, marker);
  }
}
