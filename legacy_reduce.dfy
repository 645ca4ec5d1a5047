/**
 * The older locally-nameless module `src/reduce.rs`, which the crate root does not
 * declare. It has its own `Var`, a converter pair whose backward direction panics on
 * malformed input, and a substitution `open_with` that neither shifts the replacement
 * nor decrements the indices it passes over.
 */
module LegacyReduce {
  import opened Terms
  import Reduce

  datatype Var<T> = Bound(index: nat) | Free(name: T)

  type LnTerm<T> = Term<Var<T>>

  /** Every `Bound(k)` sits under more than `k` binders and every parameter is `Free`. */
  predicate WellFormed<T>(t: LnTerm<T>, depth: nat)
  {
    match t
    case Var(Bound(k)) => k < depth
    case Var(Free(_)) => true
    case Abs(p, b) => p.Free? && WellFormed(b, depth + 1)
    case App(f, a) => WellFormed(f, depth) && WellFormed(a, depth)
  }

  /** `into_local_nameless(vars)`: nearest same-named binder, or `Free`; parameters stay `Free`. */
  function IntoLocalNameless<T(==)>(t: Term<T>, vars: seq<T>): LnTerm<T>
  {
    match t
    case Var(v) =>
      (match Reduce.Position(vars, v)
       case Some(index) => Var(Bound(index))
       case None => Var(Free(v)))
    case Abs(p, b) => Abs(Free(p), IntoLocalNameless(b, [p] + vars))
    case App(f, a) => App(IntoLocalNameless(f, vars), IntoLocalNameless(a, vars))
  }

  /**
   * `into_classic(vars)`. The source indexes the stack directly (a panic past its end)
   * and marks a `Bound` parameter `unreachable!()`, so callers must pass a term that
   * is well-formed under the stack.
   */
  function IntoClassic<T>(t: LnTerm<T>, vars: seq<T>): Term<T>
    requires WellFormed(t, |vars|)
  {
    match t
    case Var(Free(v)) => Var(v)
    case Var(Bound(index)) => Var(vars[index])
    case Abs(p, b) => Abs(p.name, IntoClassic(b, [p.name] + vars))
    case App(f, a) => App(IntoClassic(f, vars), IntoClassic(a, vars))
  }

  /** The forward conversion meets the backward one's precondition. */
  lemma {:induction false} IntoLocalNamelessWellFormed<T>(t: Term<T>, vars: seq<T>)
    ensures WellFormed(IntoLocalNameless(t, vars), |vars|)
  {
    match t
    case Var(_) =>
    case Abs(p, b) => IntoLocalNamelessWellFormed(b, [p] + vars);
    case App(f, a) => IntoLocalNamelessWellFormed(f, vars); IntoLocalNamelessWellFormed(a, vars);
  }

  /** Converting to locally-nameless form and back gives the original term. */
  lemma {:induction false} RoundTrip<T>(t: Term<T>, vars: seq<T>)
    ensures WellFormed(IntoLocalNameless(t, vars), |vars|)
    ensures IntoClassic(IntoLocalNameless(t, vars), vars) == t
  {
    IntoLocalNamelessWellFormed(t, vars);
    match t
    case Var(_) =>
    case Abs(p, b) => RoundTrip(b, [p] + vars);
    case App(f, a) => RoundTrip(f, vars); RoundTrip(a, vars);
  }

  /**
   * `open_with(depth, replacement)`: `Bound(depth)` becomes a plain copy of the
   * replacement; no index is shifted or decremented.
   */
  function OpenWith<T>(t: LnTerm<T>, depth: nat, replacement: LnTerm<T>): LnTerm<T>
  {
    match t
    case Var(Free(_)) => t
    case Var(Bound(index)) => if index == depth then replacement else t
    case Abs(p, b) => Abs(p, OpenWith(b, depth + 1, replacement))
    case App(f, a) => App(OpenWith(f, depth, replacement), OpenWith(a, depth, replacement))
  }

  /** `open(replacement)` as written: `open_with(0)` on the node, then its body if it is an abstraction. */
  function OpenAsWritten<T>(t: LnTerm<T>, replacement: LnTerm<T>): LnTerm<T>
  {
    var result := OpenWith(t, 0, replacement);
    if result.Abs? then result.body else result
  }

  /** `open` with the abstraction's own body opened at index 0. */
  function OpenCorrected<T>(t: LnTerm<T>, replacement: LnTerm<T>): LnTerm<T>
  {
    if t.Abs? then OpenWith(t.body, 0, replacement) else OpenWith(t, 0, replacement)
  }

  // ---------------------------------------------------------------------------
  // Relating the legacy module to the engine
  // ---------------------------------------------------------------------------

  /** The same term over the engine's `Var`. */
  function ToEngine<T>(t: LnTerm<T>): Reduce.LnTerm<T>
  {
    match t
    case Var(Bound(k)) => Var(Reduce.Bound(k))
    case Var(Free(v)) => Var(Reduce.Free(v))
    case Abs(Bound(k), b) => Abs(Reduce.Bound(k), ToEngine(b))
    case Abs(Free(v), b) => Abs(Reduce.Free(v), ToEngine(b))
    case App(f, a) => App(ToEngine(f), ToEngine(a))
  }

  /** Both modules agree on well-formedness. */
  lemma {:induction false} ToEngineWellFormed<T>(t: LnTerm<T>, depth: nat)
    ensures Reduce.WellFormed(ToEngine(t), depth) <==> WellFormed(t, depth)
  {
    match t
    case Var(_) =>
    case Abs(_, b) => ToEngineWellFormed(b, depth + 1);
    case App(f, a) => ToEngineWellFormed(f, depth); ToEngineWellFormed(a, depth);
  }

  /** Both converters produce the same term. */
  lemma {:induction false} IntoLocalNamelessAgrees<T>(t: Term<T>, vars: seq<T>)
    ensures ToEngine(IntoLocalNameless(t, vars)) == Reduce.ToLocalNameless(t, vars)
  {
    match t
    case Var(_) =>
    case Abs(p, b) => IntoLocalNamelessAgrees(b, [p] + vars);
    case App(f, a) => IntoLocalNamelessAgrees(f, vars); IntoLocalNamelessAgrees(a, vars);
  }

  /**
   * Without shifting or decrementing, `open_with` still agrees with the engine's `open`
   * whenever nothing needs adjusting: the term uses no index past the one replaced and
   * the replacement is closed.
   */
  lemma {:induction false} OpenWithAgreesOnClosed<T>(t: LnTerm<T>, depth: nat, replacement: LnTerm<T>)
    requires WellFormed(t, depth + 1) && WellFormed(replacement, 0)
    ensures ToEngine(OpenWith(t, depth, replacement)) == Reduce.Open(ToEngine(t), depth, ToEngine(replacement))
  {
    match t
    case Var(Free(_)) =>
    case Var(Bound(i)) =>
      if i == depth {
        ToEngineWellFormed(replacement, 0);
        Reduce.ShiftedClosed(ToEngine(replacement), 0, depth);
      }
    case Abs(_, b) => OpenWithAgreesOnClosed(b, depth + 1, replacement);
    case App(f, a) => OpenWithAgreesOnClosed(f, depth, replacement); OpenWithAgreesOnClosed(a, depth, replacement);
  }

  /** Outside the closed case it does not: an index past the replaced one is left as it was. */
  lemma OpenWithNoDecrement<T>(r: LnTerm<T>)
    ensures OpenWith(Var(Bound(1)), 0, r) == Var(Bound(1))
    ensures Reduce.Open(ToEngine(Var(Bound(1))), 0, ToEngine(r)) == Var(Reduce.Bound(0))
  {
  }

  // ---------------------------------------------------------------------------
  // `open` opens the abstraction's body at the wrong depth
  // ---------------------------------------------------------------------------

  /**
   * As written, opening an abstraction substitutes for index 1 of its body, the
   * variable of the NEXT enclosing binder, rather than for index 0, its own.
   */
  lemma OpenAsWrittenSkipsOwnBinder<T>(p: Var<T>, body: LnTerm<T>, replacement: LnTerm<T>)
    ensures OpenAsWritten(Abs(p, body), replacement) == OpenWith(body, 1, replacement)
  {
  }

  /** On `λx. x` with replacement `y` the as-written `open` returns a dangling `Bound(0)`, not `y`. */
  lemma OpenAsWrittenIdentity<T>(x: T, y: T)
    ensures OpenAsWritten(Abs(Free(x), Var(Bound(0))), Var(Free(y))) == Var(Bound(0))
    ensures !WellFormed(OpenAsWritten(Abs(Free(x), Var(Bound(0))), Var(Free(y))), 0)
    ensures OpenCorrected(Abs(Free(x), Var(Bound(0))), Var(Free(y))) == Var(Free(y))
  {
    var body: LnTerm<T> := Var(Bound(0));
    OpenAsWrittenSkipsOwnBinder(Free(x), body, Var(Free(y)));
    assert OpenWith(body, 1, Var(Free(y))) == body;
  }

  /**
   * The corrected `open` contracts a closed redex: the result is closed and is exactly
   * what the engine's `open` gives for the same body and argument.
   */
  lemma OpenCorrectedContracts<T>(p: Var<T>, body: LnTerm<T>, replacement: LnTerm<T>)
    requires WellFormed(Abs(p, body), 0) && WellFormed(replacement, 0)
    ensures WellFormed(OpenCorrected(Abs(p, body), replacement), 0)
    ensures ToEngine(OpenCorrected(Abs(p, body), replacement)) == Reduce.Open(ToEngine(body), 0, ToEngine(replacement))
  {
    OpenWithAgreesOnClosed(body, 0, replacement);
    ToEngineWellFormed(body, 1);
    ToEngineWellFormed(replacement, 0);
    Reduce.OpenWellFormed(ToEngine(body), 0, ToEngine(replacement), 0);
    ToEngineWellFormed(OpenWith(body, 0, replacement), 0);
  }
}
