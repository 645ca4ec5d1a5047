/**
 * The normal-order strategy of `src/term/reduce/normal.rs`: `Normal::beta_reduce_step`.
 *
 * The source rewrites the term in place and returns whether it reduced; here the
 * step returns that flag together with the rewritten term.
 */
module Normal {
  import opened Terms
  import opened Reduce

  /**
   * One normal-order step. A variable never changes. An abstraction steps its body.
   * An application of an abstraction steps the abstraction's body once, opens the
   * result with the (unreduced) argument and replaces the whole application, always
   * reporting a reduction. Any other application steps both sides, the function
   * first, and reports whether either changed.
   */
  function NormalStep<T>(t: LnTerm<T>): (r: Step<T>)
    ensures !r.changed ==> r.term == t
    ensures r.changed <==> HasRedex(t)
  {
    match t
    case Var(_) => Step(false, t)
    case Abs(p, body) =>
      var s := NormalStep(body);
      Step(s.changed, Abs(p, s.term))
    case App(Abs(_, body), arg) =>
      var s := NormalStep(body);
      Step(true, Open(s.term, 0, arg))
    case App(func, arg) =>
      var f := NormalStep(func);
      var a := NormalStep(arg);
      Step(f.changed || a.changed, App(f.term, a.term))
  }

  /** The term contains a beta-redex: an application whose function is an abstraction. */
  ghost predicate HasRedex<T>(t: LnTerm<T>)
  {
    match t
    case Var(_) => false
    case Abs(_, b) => HasRedex(b)
    case App(f, a) => f.Abs? || HasRedex(f) || HasRedex(a)
  }

  /** A step keeps a well-formed term well-formed, so converting back never fails. */
  lemma {:induction false} NormalStepWellFormed<T>(t: LnTerm<T>, depth: nat)
    requires WellFormed(t, depth)
    ensures WellFormed(NormalStep(t).term, depth)
  {
    match t
    case Var(_) =>
    case Abs(_, body) => NormalStepWellFormed(body, depth + 1);
    case App(Abs(_, body), arg) =>
      NormalStepWellFormed(body, depth + 1);
      OpenWellFormed(NormalStep(body).term, 0, arg, depth);
    case App(func, arg) =>
      NormalStepWellFormed(func, depth);
      NormalStepWellFormed(arg, depth);
  }

  // ---------------------------------------------------------------------------
  // Soundness: a step is a non-empty sequence of beta-contractions.
  // ---------------------------------------------------------------------------

  /** `u` arises from `t` by contracting exactly one redex, anywhere in the term. */
  ghost predicate Contracts<T>(t: LnTerm<T>, u: LnTerm<T>)
  {
    match t
    case Var(_) => false
    case Abs(p, b) => u.Abs? && u.param == p && Contracts(b, u.body)
    case App(f, a) =>
      (f.Abs? && u == Open(f.body, 0, a)) ||
      (u.App? && ((Contracts(f, u.func) && u.arg == a) || (u.func == f && Contracts(a, u.arg))))
  }

  /** A chain of terms, each obtained from the one before by one contraction. */
  ghost predicate IsReduction<T>(c: seq<LnTerm<T>>)
  {
    |c| >= 1 && forall i :: 0 <= i < |c| - 1 ==> Contracts(c[i], c[i + 1])
  }

  lemma ReductionUnderAbs<T>(p: Var<T>, c: seq<LnTerm<T>>) returns (d: seq<LnTerm<T>>)
    requires IsReduction(c)
    ensures IsReduction(d) && |d| == |c| && d[0] == Abs(p, c[0]) && d[|d| - 1] == Abs(p, c[|c| - 1])
  {
    d := seq(|c|, i requires 0 <= i < |c| => Abs(p, c[i]));
    forall i | 0 <= i < |d| - 1 ensures Contracts(d[i], d[i + 1]) {
      assert Contracts(c[i], c[i + 1]);
    }
  }

  lemma ReductionInFunc<T>(c: seq<LnTerm<T>>, a: LnTerm<T>) returns (d: seq<LnTerm<T>>)
    requires IsReduction(c)
    ensures IsReduction(d) && |d| == |c| && d[0] == App(c[0], a) && d[|d| - 1] == App(c[|c| - 1], a)
  {
    d := seq(|c|, i requires 0 <= i < |c| => App(c[i], a));
    forall i | 0 <= i < |d| - 1 ensures Contracts(d[i], d[i + 1]) {
      assert Contracts(c[i], c[i + 1]);
    }
  }

  lemma ReductionInArg<T>(f: LnTerm<T>, c: seq<LnTerm<T>>) returns (d: seq<LnTerm<T>>)
    requires IsReduction(c)
    ensures IsReduction(d) && |d| == |c| && d[0] == App(f, c[0]) && d[|d| - 1] == App(f, c[|c| - 1])
  {
    d := seq(|c|, i requires 0 <= i < |c| => App(f, c[i]));
    forall i | 0 <= i < |d| - 1 ensures Contracts(d[i], d[i + 1]) {
      assert Contracts(c[i], c[i + 1]);
    }
  }

  lemma ReductionJoin<T>(c: seq<LnTerm<T>>, d: seq<LnTerm<T>>) returns (e: seq<LnTerm<T>>)
    requires IsReduction(c) && IsReduction(d) && c[|c| - 1] == d[0]
    ensures IsReduction(e) && |e| == |c| + |d| - 1 && e[0] == c[0] && e[|e| - 1] == d[|d| - 1]
  {
    e := c + d[1..];
    forall i | 0 <= i < |e| - 1 ensures Contracts(e[i], e[i + 1]) {
      if i < |c| - 1 {
        assert Contracts(c[i], c[i + 1]);
      } else {
        assert Contracts(d[i - |c| + 1], d[i - |c| + 2]);
      }
    }
  }

  /**
   * Every normal-order step is a genuine beta-reduction: a chain of contractions
   * leads from `t` to the stepped term, and that chain is non-empty exactly when
   * the step reports a reduction.
   */
  lemma {:induction false} NormalStepReduces<T>(t: LnTerm<T>) returns (c: seq<LnTerm<T>>)
    ensures IsReduction(c) && c[0] == t && c[|c| - 1] == NormalStep(t).term
    ensures |c| > 1 <==> NormalStep(t).changed
  {
    match t
    case Var(_) =>
      c := [t];
    case Abs(p, body) =>
      var cb := NormalStepReduces(body);
      c := ReductionUnderAbs(p, cb);
    case App(Abs(p, body), arg) =>
      var cb := NormalStepReduces(body);
      var inAbs := ReductionUnderAbs(p, cb);
      var inFunc := ReductionInFunc(inAbs, arg);
      var body' := NormalStep(body).term;
      assert Contracts(App(Abs(p, body'), arg), Open(body', 0, arg));
      c := ReductionJoin(inFunc, [App(Abs(p, body'), arg), Open(body', 0, arg)]);
    case App(func, arg) =>
      var cf := NormalStepReduces(func);
      var ca := NormalStepReduces(arg);
      var left := ReductionInFunc(cf, arg);
      var right := ReductionInArg(NormalStep(func).term, ca);
      c := ReductionJoin(left, right);
  }
}
