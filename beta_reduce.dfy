/**
 * The strategy-agnostic reduction driver of `src/term/reduce.rs`: the default
 * methods of the `BetaReduce` trait (`beta_reduce`, `beta_reduce_while`,
 * `beta_reduce_limit`) and the entry points on classic terms
 * (`beta_reduced`, `beta_reduced_while`, `beta_reduced_limit`).
 *
 * A strategy is its single required operation, `beta_reduce_step`, passed as a
 * function `step`. The caller's `FnMut` predicate is a pure function of the
 * current term and the number of steps performed so far.
 */
module BetaReduce {
  import opened Wrappers
  import opened Terms
  import opened Reduce
  import opened Normal

  /** The term after `n` steps of the strategy. */
  function Iterate<T>(step: LnTerm<T> -> Step<T>, t: LnTerm<T>, n: nat): LnTerm<T>
  {
    if n == 0 then t else step(Iterate(step, t, n - 1)).term
  }

  /** At step `i` the predicate holds and the step performs a reduction. */
  ghost predicate Continues<T>(step: LnTerm<T> -> Step<T>, pred: (LnTerm<T>, nat) -> bool, t: LnTerm<T>, i: nat)
  {
    pred(Iterate(step, t, i), i) && step(Iterate(step, t, i)).changed
  }

  /**
   * `beta_reduce_while`: before each step evaluate `pred(term, count)`; stop at
   * the first false predicate or the first step that reports no reduction; return
   * the number of steps that reduced. A step that reports no reduction is still
   * applied to the term, as the source applies it.
   *
   * The loop need not stop for an arbitrary predicate; the model covers the runs
   * that do stop (at some `n`).
   */
  method BetaReduceWhile<T>(step: LnTerm<T> -> Step<T>, term: LnTerm<T>, pred: (LnTerm<T>, nat) -> bool)
    returns (count: nat, result: LnTerm<T>)
    requires exists n: nat :: !Continues(step, pred, term, n)
    ensures forall i :: 0 <= i < count ==> Continues(step, pred, term, i)
    ensures !Continues(step, pred, term, count)
    ensures var last := Iterate(step, term, count);
      result == if pred(last, count) then step(last).term else last
  {
    ghost var stop: nat :| !Continues(step, pred, term, stop);
    count, result := 0, term;
    while pred(result, count)
      invariant result == Iterate(step, term, count)
      invariant forall i :: 0 <= i < count ==> Continues(step, pred, term, i)
      invariant count <= stop
      decreases stop - count
    {
      var s := step(result);
      result := s.term;
      if !s.changed {
        return;
      }
      count := count + 1;
    }
  }

  /**
   * `beta_reduce_limit`: `beta_reduce_while` with the predicate `count < limit`. The
   * count never exceeds the limit, and a count below the limit means the strategy
   * found nothing more to reduce.
   */
  method BetaReduceLimit<T>(step: LnTerm<T> -> Step<T>, term: LnTerm<T>, limit: nat)
    returns (count: nat, result: LnTerm<T>)
    ensures LimitOutcome(step, term, limit, count)
    ensures result == if count < limit then step(Iterate(step, term, count)).term else Iterate(step, term, count)
  {
    var underLimit := (_: LnTerm<T>, c: nat) => c < limit;
    assert !Continues(step, underLimit, term, limit);
    count, result := BetaReduceWhile(step, term, underLimit);
    assert count > limit ==> Continues(step, underLimit, term, limit);
    forall i | 0 <= i < count
      ensures step(Iterate(step, term, i)).changed
    {
      assert Continues(step, underLimit, term, i);
    }
  }

  /** What `beta_reduce_limit(limit)` promises about its count. */
  ghost predicate LimitOutcome<T>(step: LnTerm<T> -> Step<T>, t: LnTerm<T>, limit: nat, count: nat)
  {
    && count <= limit
    && (forall i :: 0 <= i < count ==> step(Iterate(step, t, i)).changed)
    && (count < limit ==> !step(Iterate(step, t, count)).changed)
  }

  /**
   * `beta_reduce`: step until the strategy reports no reduction; return the number
   * of steps that reduced. The model covers the terms on which this stops.
   */
  method BetaReduceFull<T>(step: LnTerm<T> -> Step<T>, term: LnTerm<T>) returns (count: nat, result: LnTerm<T>)
    requires exists n: nat :: !step(Iterate(step, term, n)).changed
    ensures forall i :: 0 <= i < count ==> step(Iterate(step, term, i)).changed
    ensures !step(Iterate(step, term, count)).changed
    ensures result == step(Iterate(step, term, count)).term
  {
    ghost var stop: nat :| !step(Iterate(step, term, stop)).changed;
    count, result := 0, term;
    while true
      invariant result == Iterate(step, term, count)
      invariant forall i :: 0 <= i < count ==> step(Iterate(step, term, i)).changed
      invariant count <= stop
      decreases stop - count
    {
      var s := step(result);
      result := s.term;
      if !s.changed {
        return;
      }
      count := count + 1;
    }
  }

  // ---------------------------------------------------------------------------
  // Properties of iterating the normal-order strategy
  // ---------------------------------------------------------------------------

  /** Normal-order iteration keeps well-formedness. */
  lemma {:induction false} IterateWellFormed<T>(t: LnTerm<T>, n: nat, depth: nat)
    requires WellFormed(t, depth)
    ensures WellFormed(Iterate(NormalStep, t, n), depth)
  {
    if n > 0 {
      IterateWellFormed(t, n - 1, depth);
      NormalStepWellFormed(Iterate(NormalStep, t, n - 1), depth);
    }
  }

  /** Once a normal form is reached, further iteration changes nothing. */
  lemma {:induction false} IterateNormalForm<T>(t: LnTerm<T>, k: nat, m: nat)
    requires !HasRedex(Iterate(NormalStep, t, k)) && k <= m
    ensures Iterate(NormalStep, t, m) == Iterate(NormalStep, t, k)
    decreases m
  {
    if m > k {
      IterateNormalForm(t, k, m - 1);
    }
  }

  /**
   * Soundness of the drivers: the term after `n` normal-order steps is reached from
   * the start by genuine beta-contractions, at least one per step that reported a
   * reduction.
   */
  lemma {:induction false} IterateReduces<T>(t: LnTerm<T>, n: nat) returns (c: seq<LnTerm<T>>)
    ensures IsReduction(c) && c[0] == t && c[|c| - 1] == Iterate(NormalStep, t, n)
    ensures (forall i :: 0 <= i < n ==> NormalStep(Iterate(NormalStep, t, i)).changed) ==> |c| > n
  {
    if n == 0 {
      c := [t];
    } else {
      var before := IterateReduces(t, n - 1);
      var last := NormalStepReduces(Iterate(NormalStep, t, n - 1));
      c := ReductionJoin(before, last);
    }
  }

  /**
   * Monotonic bounding: once a limit is large enough for reduction to finish (the
   * run ends on a normal form, also when the count reaches the limit exactly), a
   * larger limit gives the same count and the same term.
   */
  lemma LimitOutcomeMonotone<T>(t: LnTerm<T>, limit: nat, limit': nat, count: nat, count': nat)
    requires LimitOutcome(NormalStep, t, limit, count) && LimitOutcome(NormalStep, t, limit', count')
    requires limit <= limit' && !HasRedex(Iterate(NormalStep, t, count))
    ensures count' == count && Iterate(NormalStep, t, count') == Iterate(NormalStep, t, count)
  {
  }

  // ---------------------------------------------------------------------------
  // Entry points on classic terms, with the normal-order strategy
  // ---------------------------------------------------------------------------

  /** `ReducedTerm { count, term }`. */
  datatype ReducedTerm<T> = ReducedTerm(count: nat, term: Term<T>)

  /** The conversion back after normal-order steps always succeeds (the `unwrap` never fails). */
  lemma ConvertBack<T>(t: Term<T>, n: nat)
    ensures TryIntoClassic(Iterate(NormalStep, FromClassic(t), n)).Ok?
  {
    ToLocalNamelessWellFormed(t, []);
    IterateWellFormed(FromClassic(t), n, 0);
    ToClassicSucceedsIffWellFormed(Iterate(NormalStep, FromClassic(t), n), []);
  }

  /**
   * `Term::beta_reduced_limit(&self, limit, &Normal)`: convert, reduce up to the limit,
   * convert back. The input is left untouched.
   */
  method BetaReducedLimit<T(==)>(t: Term<T>, limit: nat) returns (r: ReducedTerm<T>)
    ensures LimitOutcome(NormalStep, FromClassic(t), limit, r.count)
    ensures TryIntoClassic(Iterate(NormalStep, FromClassic(t), r.count)) == Ok(r.term)
    ensures r.count < limit ==> !HasRedex(Iterate(NormalStep, FromClassic(t), r.count))
    ensures !HasRedex(FromClassic(t)) ==> r == ReducedTerm(0, t)
  {
    var localNameless := FromClassic(t);
    var count, result := BetaReduceLimit(NormalStep, localNameless, limit);
    ConvertBack(t, count);
    RoundTrip(t, []);
    assert count > 0 ==> NormalStep(Iterate(NormalStep, localNameless, 0)).changed;
    r := ReducedTerm(count, TryIntoClassic(result).value);
  }

  /**
   * `Term::beta_reduced_while(&self, pred, &Normal)`, for the runs that stop.
   */
  method BetaReducedWhile<T(==)>(t: Term<T>, pred: (LnTerm<T>, nat) -> bool) returns (r: ReducedTerm<T>)
    requires exists n: nat :: !Continues(NormalStep, pred, FromClassic(t), n)
    ensures forall i :: 0 <= i < r.count ==> Continues(NormalStep, pred, FromClassic(t), i)
    ensures !Continues(NormalStep, pred, FromClassic(t), r.count)
    ensures TryIntoClassic(Iterate(NormalStep, FromClassic(t), r.count)) == Ok(r.term)
  {
    var localNameless := FromClassic(t);
    var count, result := BetaReduceWhile(NormalStep, localNameless, pred);
    ConvertBack(t, count);
    r := ReducedTerm(count, TryIntoClassic(result).value);
  }

  /**
   * `Term::beta_reduced(&self, &Normal)`, for the terms whose normal-order reduction
   * stops: the result is a normal form and the count is the number of steps taken.
   */
  method BetaReduced<T(==)>(t: Term<T>) returns (r: ReducedTerm<T>)
    requires exists n: nat :: !HasRedex(Iterate(NormalStep, FromClassic(t), n))
    ensures forall i :: 0 <= i < r.count ==> HasRedex(Iterate(NormalStep, FromClassic(t), i))
    ensures !HasRedex(Iterate(NormalStep, FromClassic(t), r.count))
    ensures TryIntoClassic(Iterate(NormalStep, FromClassic(t), r.count)) == Ok(r.term)
    ensures !HasRedex(FromClassic(t)) ==> r == ReducedTerm(0, t)
  {
    var localNameless := FromClassic(t);
    var count, result := BetaReduceFull(NormalStep, localNameless);
    ConvertBack(t, count);
    RoundTrip(t, []);
    assert count > 0 ==> NormalStep(Iterate(NormalStep, localNameless, 0)).changed;
    r := ReducedTerm(count, TryIntoClassic(result).value);
  }
}
