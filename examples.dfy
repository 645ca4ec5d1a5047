/**
 * Concrete terms from `src/prelude/combinators.rs` and the crate documentation,
 * with the displayed strings `src/term/tests.rs` pins and the reductions the
 * documentation describes.
 */
module Examples {
  import opened Wrappers
  import opened Terms
  import opened Reduce
  import opened Normal
  import opened BetaReduce
  import Idents
  import Repl

  function V(x: string): Term<string> { Var(x) }
  function L(x: string, b: Term<string>): Term<string> { Abs(x, b) }
  function A(f: Term<string>, a: Term<string>): Term<string> { App(f, a) }

  /** The composition combinator `B`. */
  function Compose(): Term<string> { L("f", L("g", L("x", A(V("f"), A(V("g"), V("x")))))) }

  /** The argument-flipping combinator `C`. */
  function Flip(): Term<string> { L("f", L("x", L("y", A(A(V("f"), V("y")), V("x"))))) }

  /** The self-application `ω`. */
  function AppSelf(): Term<string> { L("x", A(V("x"), V("x"))) }

  /** The diverging combinator `Ω = ω ω`. */
  function Omega(): Term<string> { A(AppSelf(), AppSelf()) }

  /** The substitution combinator `S`. */
  function Sub(): Term<string> { L("x", L("y", L("z", A(A(V("x"), V("z")), A(V("y"), V("z")))))) }

  /** The constant combinator `K`. */
  function Constant(): Term<string> { L("x", L("y", V("x"))) }

  // ---------------------------------------------------------------------------
  // Displayed strings
  // ---------------------------------------------------------------------------

  lemma DisplayCompose()
    ensures Display(Lift(Compose())) == "λf. λg. λx. f (g x)"
  {
  }

  lemma DisplayFlip()
    ensures Display(Lift(Flip())) == "λf. λx. λy. f y x"
  {
  }

  lemma DisplayOmega()
    ensures Display(Lift(Omega())) == "(λx. x x) (λx. x x)"
  {
  }

  lemma DisplaySub()
    ensures Display(Lift(Sub())) == "λx. λy. λz. x z (y z)"
  {
  }

  lemma DisplayConstant()
    ensures Display(Lift(Constant())) == "λx. λy. x"
  {
  }

  // ---------------------------------------------------------------------------
  // Conversion
  // ---------------------------------------------------------------------------

  /** In `λx. λx. x` the variable refers to the nearer binder. */
  lemma NearestBinderWins()
    ensures FromClassic(L("x", L("x", V("x")))) == Abs(Free("x"), Abs(Free("x"), Var(Bound(0))))
    ensures TryIntoClassic(FromClassic(L("x", L("x", V("x"))))) == Ok(L("x", L("x", V("x"))))
  {
    RoundTrip(L("x", L("x", V("x"))), []);
  }

  /** The renaming pass numbers the two binders apart and links the variable to the inner one. */
  lemma RenameShadowed()
    ensures RebindIds(Lift(L("x", L("x", V("x")))), map[], map[]).term ==
      Abs(Idents.Ident("x", Some(0)), Abs(Idents.Ident("x", Some(1)), Var(Idents.Ident("x", Some(1)))))
  {
  }

  // ---------------------------------------------------------------------------
  // Reduction
  // ---------------------------------------------------------------------------

  /** `Ω` steps to itself and reports a reduction every time. */
  lemma {:induction false} OmegaIterate(n: nat)
    ensures Iterate(NormalStep, FromClassic(Omega()), n) == FromClassic(Omega())
    ensures NormalStep(Iterate(NormalStep, FromClassic(Omega()), n)).changed
  {
    var w: LnTerm<string> := Abs(Free("x"), App(Var(Bound(0)), Var(Bound(0))));
    assert ["x"] + [] == ["x"];
    assert ToLocalNameless(A(V("x"), V("x")), ["x"]) == App(Var(Bound(0)), Var(Bound(0)));
    assert FromClassic(AppSelf()) == w;
    assert FromClassic(Omega()) == App(w, w);
    ShiftedByZero(w, 0);
    assert NormalStep(FromClassic(Omega())) == Step(true, FromClassic(Omega()));
    if n > 0 {
      OmegaIterate(n - 1);
    }
  }

  /**
   * A redex's body is stepped once, not reduced fully, before it is opened:
   * `(λx. (λa. a) ((λb. b) x)) y` steps to `(λb. b) y`, which still holds a redex.
   */
  lemma StepOnceUnderRedex()
    ensures NormalStep(FromClassic(A(L("x", A(L("a", V("a")), A(L("b", V("b")), V("x")))), V("y")))).term
      == FromClassic(A(L("b", V("b")), V("y")))
    ensures HasRedex(FromClassic(A(L("b", V("b")), V("y"))))
  {
    var inner: LnTerm<string> := App(Abs(Free("b"), Var(Bound(0))), Var(Bound(0)));
    assert ["x"] + [] == ["x"];
    assert Position(["a", "x"], "a") == Some(0) && Position(["b", "x"], "b") == Some(0);
    assert ToLocalNameless(A(L("b", V("b")), V("x")), ["x"]) == inner;
    assert FromClassic(A(L("x", A(L("a", V("a")), A(L("b", V("b")), V("x")))), V("y"))) ==
      App(Abs(Free("x"), App(Abs(Free("a"), Var(Bound(0))), inner)), Var(Free("y")));
    assert NormalStep(App(Abs(Free("a"), Var(Bound(0))), inner)).term == inner;
  }

  /**
   * Converting back can capture a free name. `(λx. λy. x) y` steps to the abstraction
   * `Abs(y, Free(y))`, whose body is the outer, free `y`. That term is a normal form,
   * and `to_classic` names it `λy. y`, the identity, which reads back as a different
   * term. The capture-checked conversion refuses it.
   */
  lemma CaptureOnConvertBack()
    ensures NormalStep(FromClassic(A(L("x", L("y", V("x"))), V("y")))).term == Abs(Free("y"), Var(Free("y")))
    ensures !HasRedex(Abs(Free("y"), Var(Free("y"))))
    ensures TryIntoClassic(Abs(Free("y"), Var(Free("y")))) == Ok(L("y", V("y")))
    ensures FromClassic(L("y", V("y"))) != Abs(Free("y"), Var(Free("y")))
    ensures ToClassicChecked(Abs(Free("y"), Var(Free("y"))), []) == None
  {
    assert ["y"] + (["x"] + []) == ["y", "x"] && ["y", "x"][1..] == ["x"];
    assert Position(["y", "x"], "x") == Some(1);
    assert FromClassic(A(L("x", L("y", V("x"))), V("y"))) ==
      App(Abs(Free("x"), Abs(Free("y"), Var(Bound(1)))), Var(Free("y")));
    assert FromClassic(L("y", V("y"))) == Abs(Free("y"), Var(Bound(0)));
  }

  /**
   * The boundary of monotonic bounding: `(λx. x) y` takes one step, so under a limit
   * of 1 the count reaches the limit (and the warning shows) on a term that is
   * already normal, and any larger limit gives the same count.
   */
  lemma LimitEqualsSteps(limit': nat, count: nat, count': nat)
    requires LimitOutcome(NormalStep, FromClassic(A(L("x", V("x")), V("y"))), 1, count)
    requires limit' >= 1 && LimitOutcome(NormalStep, FromClassic(A(L("x", V("x")), V("y"))), limit', count')
    ensures count == 1 && count' == 1
    ensures !HasRedex(Iterate(NormalStep, FromClassic(A(L("x", V("x")), V("y"))), count))
  {
    var t := FromClassic(A(L("x", V("x")), V("y")));
    assert ["x"] + [] == ["x"];
    assert t == App(Abs(Free("x"), Var(Bound(0))), Var(Free("y")));
    assert NormalStep(t) == Step(true, Var(Free("y")));
    assert Iterate(NormalStep, t, 1) == Var(Free("y"));
    LimitOutcomeMonotone(t, 1, limit', count, count');
  }

  /** So a limited reduction of `Ω` always uses up its whole limit (5 steps for a limit of 5). */
  lemma OmegaHitsLimit(limit: nat, count: nat)
    requires LimitOutcome(NormalStep, FromClassic(Omega()), limit, count)
    ensures count == limit
  {
    OmegaIterate(count);
  }

  /** `(λw. w w w) (λw. w w w)`, which grows without end. */
  function Grow(): Term<string> { A(L("w", A(A(V("w"), V("w")), V("w"))), L("w", A(A(V("w"), V("w")), V("w")))) }

  /**
   * `(λx. z) ((λw. w w w) (λw. w w w))`: normal order discards the diverging
   * argument, reaching `z` in one step, whatever the limit above zero.
   */
  lemma DiscardDivergentArgument(limit: nat, count: nat)
    requires limit >= 1 && LimitOutcome(NormalStep, FromClassic(A(L("x", V("z")), Grow())), limit, count)
    ensures count == 1
    ensures TryIntoClassic(Iterate(NormalStep, FromClassic(A(L("x", V("z")), Grow())), count)) == Ok(V("z"))
  {
    var t := FromClassic(A(L("x", V("z")), Grow()));
    assert NormalStep(t) == Step(true, Var(Free("z")));
    assert Iterate(NormalStep, t, 1) == Var(Free("z"));
    assert count >= 2 ==> NormalStep(Iterate(NormalStep, t, 1)).changed;
  }

  /** A fresh REPL binds the identity and then reduces `id y` to `y` in one step, with no warning. */
  method Session() returns (added: seq<Repl.CommandOutcome<string>>, reduced: seq<Repl.CommandOutcome<string>>)
    ensures added == [Repl.BindAdded("id")]
    ensures reduced == [Repl.TermReduced(ReducedTerm(1, V("y")))]
  {
    var repl := new Repl.Repl<string>();
    var statements := [Repl.Bind("id", L("x", V("x")))];
    added := repl.Exec(Repl.Exec(statements));
    assert statements[..0] == [];
    assert Repl.Resolve(L("x", V("x")), map[]) == Abs(Free("x"), Var(Bound(0)));
    assert repl.binds == map["id" := Abs(Free("x"), Var(Bound(0)))];
    reduced := repl.Exec(Repl.ReduceTerm(A(V("id"), V("y"))));
    var start := Repl.Resolve(A(V("id"), V("y")), map["id" := Abs(Free("x"), Var(Bound(0)))]);
    assert start == App(Abs(Free("x"), Var(Bound(0))), Var(Free("y")));
    assert NormalStep(start) == Step(true, Var(Free("y")));
    assert Iterate(NormalStep, start, 1) == Var(Free("y"));
    var count := reduced[0].reduced.count;
    assert count >= 2 ==> NormalStep(Iterate(NormalStep, start, 1)).changed;
  }
}
